/** The parts of the NeDB datastore API the handlers rely on, over in-memory sequences:
    equality queries (`find`, `findOne`) and cursor sorting. */
module NeDb {
  import opened JsValues

  /** Whether a query `{field: q}` selects a document whose field holds `stored`. NeDB
      compares primitives with `===` and dates by instant, and a query value of `undefined`
      never selects anything. */
  predicate Matches(stored: Value, q: Value)
  {
    q != Undefined && stored == q
  }

  /** `findOne`: a document the query selects, taken as the first in sequence order. The
      handlers look up only unique-indexed fields (`email`, `userId`), where at most one
      document is selected, so which one NeDB's index walk would reach first never matters. */
  function FindFirst<T>(s: seq<T>, selects: T -> bool): (r: Option<T>)
    ensures r.None? <==> forall x :: x in s ==> !selects(x)
    ensures r.Some? ==> exists i :: 0 <= i < |s| && s[i] == r.value && selects(s[i]) &&
                                    forall j :: 0 <= j < i ==> !selects(s[j])
  {
    if s == [] then None
    else if selects(s[0]) then Some(s[0])
    else
      var r := FindFirst(s[1..], selects);
      assert forall x :: x in s[1..] ==> x in s;
      assert r.Some? ==> exists i :: 0 < i < |s| && s[i] == r.value && selects(s[i]) &&
                                     forall j :: 0 <= j < i ==> !selects(s[j]) by {
        if r.Some? {
          var i :| 0 <= i < |s[1..]| && s[1..][i] == r.value && selects(s[1..][i]) &&
                   forall j :: 0 <= j < i ==> !selects(s[1..][j]);
          assert forall j :: 1 <= j < i + 1 ==> s[j] == s[1..][j - 1];
        }
      }
      r
  }

  /** `find`: the documents the query selects, each as often as it is stored and no other. */
  function Where<T(!new)>(s: seq<T>, selects: T -> bool): (r: seq<T>)
    ensures forall x :: x in r <==> x in s && selects(x)
    ensures forall x :: multiset(r)[x] == if selects(x) then multiset(s)[x] else 0
  {
    if s == [] then []
    else
      var rest := Where(s[1..], selects);
      assert s == [s[0]] + s[1..];
      assert multiset(s) == multiset{s[0]} + multiset(s[1..]);
      if selects(s[0]) then [s[0]] + rest else rest
  }

  /** Ascending order of a sort key (`.sort({field: 1})`). */
  ghost predicate SortedBy<T>(s: seq<T>, key: T -> int)
  {
    forall i, j :: 0 <= i < j < |s| ==> key(s[i]) <= key(s[j])
  }

  /** Places `x` before the first element whose key is not smaller than its own. */
  function InsertByKey<T>(x: T, s: seq<T>, key: T -> int): (r: seq<T>)
    requires SortedBy(s, key)
    ensures SortedBy(r, key)
    ensures multiset(r) == multiset(s) + multiset{x}
    ensures |r| == |s| + 1 && (r[0] == x || (s != [] && r[0] == s[0]))
  {
    if s == [] || key(x) <= key(s[0]) then [x] + s
    else
      var rest := InsertByKey(x, s[1..], key);
      assert s == [s[0]] + s[1..];
      assert key(s[0]) <= key(rest[0]);
      [s[0]] + rest
  }

  /** The cursor's `sort`: the same documents, ascending by `key`. */
  function SortBy<T>(s: seq<T>, key: T -> int): (r: seq<T>)
    ensures SortedBy(r, key)
    ensures multiset(r) == multiset(s)
  {
    if s == [] then []
    else
      assert s == [s[0]] + s[1..];
      InsertByKey(s[0], SortBy(s[1..], key), key)
  }

  /** JavaScript's `<` on two strings, with which NeDB's `compareThings` orders the `_id`
      index: the first differing character decides, and a proper prefix comes first. */
  predicate TextLess(a: string, b: string)
  {
    if a == [] then b != []
    else b != [] && (a[0] < b[0] || (a[0] == b[0] && TextLess(a[1..], b[1..])))
  }

  lemma {:induction false} TextLessIrreflexive(a: string)
    ensures !TextLess(a, a)
  {
    if a != [] {
      TextLessIrreflexive(a[1..]);
    }
  }

  lemma {:induction false} TextLessTransitive(a: string, b: string, c: string)
    requires TextLess(a, b) && TextLess(b, c)
    ensures TextLess(a, c)
  {
    if a != [] && a[0] == b[0] && b[0] == c[0] {
      TextLessTransitive(a[1..], b[1..], c[1..]);
    }
  }

  lemma {:induction false} TextLessTotal(a: string, b: string)
    requires a != b
    ensures TextLess(a, b) || TextLess(b, a)
  {
    if a != [] && b != [] && a[0] == b[0] {
      assert a == [a[0]] + a[1..] && b == [b[0]] + b[1..];
      TextLessTotal(a[1..], b[1..]);
    }
  }

  /** "Not less" chains: `a <= b <= c` in the string order gives `a <= c`. */
  lemma NotTextLessChain(a: string, b: string, c: string)
    requires !TextLess(b, a) && !TextLess(c, b)
    ensures !TextLess(c, a)
  {
    if TextLess(c, a) {
      if c != b {
        TextLessTotal(b, c);
        TextLessTransitive(b, c, a);
      }
    }
  }

  /** Ascending order of a string key: no later key is smaller than an earlier one. */
  ghost predicate AscendingText<T>(s: seq<T>, key: T -> string)
  {
    forall i, j :: 0 <= i < j < |s| ==> !TextLess(key(s[j]), key(s[i]))
  }

  /** Places `x` before the first element whose key is not smaller than its own. */
  function InsertByText<T>(x: T, s: seq<T>, key: T -> string): (r: seq<T>)
    requires AscendingText(s, key)
    ensures AscendingText(r, key)
    ensures multiset(r) == multiset(s) + multiset{x}
    ensures |r| == |s| + 1 && (r[0] == x || (s != [] && r[0] == s[0]))
  {
    if s == [] || !TextLess(key(s[0]), key(x)) then
      assert forall j :: 0 <= j < |s| ==> !TextLess(key(s[j]), key(x)) by {
        forall j | 0 <= j < |s| ensures !TextLess(key(s[j]), key(x)) {
          if j > 0 {
            NotTextLessChain(key(x), key(s[0]), key(s[j]));
          } else {
            TextLessIrreflexive(key(x));
          }
        }
      }
      [x] + s
    else
      var rest := InsertByText(x, s[1..], key);
      assert s == [s[0]] + s[1..];
      assert !TextLess(key(rest[0]), key(s[0])) by {
        if rest[0] == x {
          if TextLess(key(x), key(s[0])) {
            TextLessTransitive(key(s[0]), key(x), key(s[0]));
            TextLessIrreflexive(key(s[0]));
          }
        }
      }
      assert forall j :: 0 <= j < |rest| ==> !TextLess(key(rest[j]), key(s[0])) by {
        forall j | 0 <= j < |rest| ensures !TextLess(key(rest[j]), key(s[0])) {
          if j > 0 {
            NotTextLessChain(key(s[0]), key(rest[0]), key(rest[j]));
          }
        }
      }
      [s[0]] + rest
  }

  /** The order in which `find` returns documents when no index narrows the query: the
      walk of the `_id` index, that is the same documents ascending by `key`. */
  function SortByText<T>(s: seq<T>, key: T -> string): (r: seq<T>)
    ensures AscendingText(r, key)
    ensures multiset(r) == multiset(s)
  {
    if s == [] then []
    else
      assert s == [s[0]] + s[1..];
      InsertByText(s[0], SortByText(s[1..], key), key)
  }

  /** A sorted copy keeps a string order among equal sort keys: where two documents have
      the same `key`, their `id`s ascend. */
  ghost predicate TiesAscendingText<T>(s: seq<T>, key: T -> int, id: T -> string)
  {
    forall i, j :: 0 <= i < j < |s| && key(s[i]) == key(s[j]) ==> !TextLess(id(s[j]), id(s[i]))
  }

  lemma AscendingTextTail<T>(s: seq<T>, id: T -> string)
    requires s != [] && AscendingText(s, id)
    ensures AscendingText(s[1..], id)
    ensures forall k :: 0 <= k < |s[1..]| ==> !TextLess(id(s[1..][k]), id(s[0]))
  {
    forall i, j | 0 <= i < j < |s[1..]| ensures !TextLess(id(s[1..][j]), id(s[1..][i])) {
      assert s[1..][i] == s[i + 1] && s[1..][j] == s[j + 1];
    }
  }

  /** `find` keeps the order of its candidates: selecting from a sequence ascending in `id`
      gives a sequence ascending in `id`. */
  lemma {:induction false} WhereKeepsTextOrder<T(!new)>(s: seq<T>, selects: T -> bool, id: T -> string)
    requires AscendingText(s, id)
    ensures AscendingText(Where(s, selects), id)
  {
    if s != [] {
      AscendingTextTail(s, id);
      WhereKeepsTextOrder(s[1..], selects, id);
      var rest := Where(s[1..], selects);
      if selects(s[0]) {
        var r := [s[0]] + rest;
        forall i, j | 0 <= i < j < |r| ensures !TextLess(id(r[j]), id(r[i])) {
          assert r[j] == rest[j - 1];
          if i == 0 {
            assert rest[j - 1] in s[1..];
            var m :| 0 <= m < |s[1..]| && s[1..][m] == rest[j - 1];
          } else {
            assert r[i] == rest[i - 1];
          }
        }
      }
    }
  }

  /** Inserting `x`, whose `id` is not above any in `s`, before the first element whose key
      is not smaller keeps equal keys in `id` order. */
  lemma {:induction false} InsertByKeyKeepsTies<T>(x: T, s: seq<T>, key: T -> int, id: T -> string)
    requires SortedBy(s, key) && TiesAscendingText(s, key, id)
    requires forall k :: 0 <= k < |s| ==> !TextLess(id(s[k]), id(x))
    ensures TiesAscendingText(InsertByKey(x, s, key), key, id)
  {
    var r := InsertByKey(x, s, key);
    if s == [] || key(x) <= key(s[0]) {
      assert r == [x] + s;
      forall i, j | 0 <= i < j < |r| && key(r[i]) == key(r[j]) ensures !TextLess(id(r[j]), id(r[i])) {
        assert r[j] == s[j - 1];
        if i > 0 {
          assert r[i] == s[i - 1];
        }
      }
    } else {
      var rest := InsertByKey(x, s[1..], key);
      assert r == [s[0]] + rest;
      assert TiesAscendingText(s[1..], key, id) by {
        forall i, j | 0 <= i < j < |s[1..]| && key(s[1..][i]) == key(s[1..][j])
          ensures !TextLess(id(s[1..][j]), id(s[1..][i])) {
          assert s[1..][i] == s[i + 1] && s[1..][j] == s[j + 1];
        }
      }
      assert forall k :: 0 <= k < |s[1..]| ==> !TextLess(id(s[1..][k]), id(x)) by {
        forall k | 0 <= k < |s[1..]| ensures !TextLess(id(s[1..][k]), id(x)) {
          assert s[1..][k] == s[k + 1];
        }
      }
      InsertByKeyKeepsTies(x, s[1..], key, id);
      assert key(r[0]) <= key(r[1]);
      forall i, j | 0 <= i < j < |r| && key(r[i]) == key(r[j]) ensures !TextLess(id(r[j]), id(r[i])) {
        assert r[j] == rest[j - 1];
        if i > 0 {
          assert r[i] == rest[i - 1];
        } else {
          // the first of `rest` has the same key as s[0], so it is s[1], not x
          assert key(rest[0]) <= key(rest[j - 1]);
          assert rest[0] == s[1];
          if j > 1 {
            NotTextLessChain(id(s[0]), id(rest[0]), id(rest[j - 1]));
          }
        }
      }
    }
  }

  /** `sort` is stable: sorting a sequence ascending in `id` leaves equal keys in `id` order. */
  lemma {:induction false} SortByKeepsTextOrder<T>(s: seq<T>, key: T -> int, id: T -> string)
    requires AscendingText(s, id)
    ensures TiesAscendingText(SortBy(s, key), key, id)
  {
    if s != [] {
      AscendingTextTail(s, id);
      SortByKeepsTextOrder(s[1..], key, id);
      var t := SortBy(s[1..], key);
      forall k | 0 <= k < |t| ensures !TextLess(id(t[k]), id(s[0])) {
        assert t[k] in multiset(t);
        assert t[k] in s[1..];
        var m :| 0 <= m < |s[1..]| && s[1..][m] == t[k];
      }
      InsertByKeyKeepsTies(s[0], t, key, id);
    }
  }

  /** `find(query).sort({key})` on a collection whose query field has no index: the
      candidates are the `_id` index walk, the query selects among them, and the stable sort
      orders them by `key`, leaving equal keys in `_id` order. */
  function FindSorted<T(!new)>(s: seq<T>, selects: T -> bool, key: T -> int, id: T -> string): (r: seq<T>)
    ensures SortedBy(r, key) && TiesAscendingText(r, key, id)
    ensures forall x :: multiset(r)[x] == if selects(x) then multiset(s)[x] else 0
  {
    var candidates := SortByText(s, id);
    var selected := Where(candidates, selects);
    WhereKeepsTextOrder(candidates, selects, id);
    SortByKeepsTextOrder(selected, key, id);
    SortBy(selected, key)
  }
}
