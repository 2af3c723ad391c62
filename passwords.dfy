/** The password helpers of the database module: guards around bcryptjs, whose internals are
    left uninterpreted. */
module Passwords {
  import opened JsValues

  /** The cost factor `hashPassword` passes to bcrypt. */
  const SaltRounds: nat := 10

  /** bcrypt's two entry points on strings, as opaque function values: `hash(password,
      rounds, salt)`, where the random salt is an argument, and `compare(candidate, hash)`.
      bcryptjs rejects any argument that is not a string before computing anything. */
  datatype Bcrypt = Bcrypt(hash: (string, nat, string) -> string, compare: (string, string) -> bool)

  /** What bcrypt guarantees and the round-trip lemmas use: hashing a non-empty string gives
      a non-empty hash against which that string compares true. */
  ghost predicate Sound(b: Bcrypt)
  {
    forall p: string, salt: string {:trigger b.hash(p, SaltRounds, salt)} :: p != "" ==>
      b.hash(p, SaltRounds, salt) != "" && b.compare(p, b.hash(p, SaltRounds, salt))
  }

  /** `hashPassword`: None when it fails, either by its own throw for a falsy password,
      before bcrypt is reached, or by bcrypt's rejection of a password that is not a string
      (`true`, a Date); otherwise the bcrypt hash with the fixed cost factor. */
  function HashPassword(b: Bcrypt, password: Value, salt: string): (r: Option<string>)
    ensures r.None? <==> !Truthy(password) || !password.Str?
    ensures r.Some? ==> password.Str? && r.value == b.hash(password.s, SaltRounds, salt)
  {
    if !Truthy(password) then None
    else if !password.Str? then None
    else Some(b.hash(password.s, SaltRounds, salt))
  }

  /** `comparePassword`: false whenever the candidate or the stored hash is falsy, whatever
      bcrypt would answer; None when bcrypt rejects a truthy argument that is not a string;
      otherwise bcrypt's verdict. */
  function ComparePassword(b: Bcrypt, candidate: Value, hash: Value): (r: Option<bool>)
    ensures !Truthy(candidate) || !Truthy(hash) ==> r == Some(false)
    ensures r.None? <==> Truthy(candidate) && Truthy(hash) && !(candidate.Str? && hash.Str?)
    ensures Truthy(candidate) && Truthy(hash) && candidate.Str? && hash.Str? ==>
              r == Some(b.compare(candidate.s, hash.s))
  {
    if !Truthy(candidate) || !Truthy(hash) then Some(false)
    else if !candidate.Str? || !hash.Str? then None
    else Some(b.compare(candidate.s, hash.s))
  }

  /** Round trip: with a sound bcrypt, a password compares true against its own hash. */
  lemma HashThenCompare(b: Bcrypt, password: string, salt: string)
    requires Sound(b) && password != ""
    ensures HashPassword(b, Str(password), salt).Some?
    ensures ComparePassword(b, Str(password), Str(HashPassword(b, Str(password), salt).value)) == Some(true)
  {
    assert b.hash(password, SaltRounds, salt) != "";
  }
}
