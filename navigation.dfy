/** The `navigate-to` handler's pure part: splitting the page argument at '?', the file to
    load, and whether the load bypasses the cache and forces a repaint. */
module Navigation {

  /** The pieces of `s` between occurrences of `sep`, as `String.prototype.split` gives them. */
  function Split(s: string, sep: char): (pieces: seq<string>)
    ensures |pieces| >= 1
    ensures forall i :: 0 <= i < |pieces| ==> sep !in pieces[i]
  {
    if s == [] then [""]
    else
      var rest := Split(s[1..], sep);
      if s[0] == sep then [""] + rest
      else [[s[0]] + rest[0]] + rest[1..]
  }

  /** The pieces glued back with `sep` between them (`Array.prototype.join`). */
  function Join(pieces: seq<string>, sep: char): string
    requires |pieces| >= 1
  {
    if |pieces| == 1 then pieces[0] else pieces[0] + [sep] + Join(pieces[1..], sep)
  }

  /** Round trip: joining the pieces with the separator gives back the string. */
  lemma {:induction false} SplitThenJoin(s: string, sep: char)
    ensures Join(Split(s, sep), sep) == s
  {
    if s != [] {
      SplitThenJoin(s[1..], sep);
      var rest := Split(s[1..], sep);
      if s[0] == sep {
        assert ([""] + rest)[1..] == rest;
        assert s == [sep] + s[1..];
      } else {
        JoinFirst(rest, sep, [s[0]]);
        assert s == [s[0]] + s[1..];
      }
    }
  }

  /** Prefixing the first piece prefixes the joined string. */
  lemma JoinFirst(pieces: seq<string>, sep: char, prefix: string)
    requires |pieces| >= 1
    ensures Join([prefix + pieces[0]] + pieces[1..], sep) == prefix + Join(pieces, sep)
  {
    var p := [prefix + pieces[0]] + pieces[1..];
    assert p[1..] == pieces[1..];
  }

  /** A string without the separator splits into itself. */
  lemma {:induction false} SplitWithoutSeparator(s: string, sep: char)
    requires sep !in s
    ensures Split(s, sep) == [s]
  {
    if s != [] {
      assert sep !in s[1..];
      SplitWithoutSeparator(s[1..], sep);
      assert [s[0]] + s[1..] == s;
    }
  }

  /** Splitting `p + sep + rest`, where `p` has no separator, yields `p` first. */
  lemma {:induction false} SplitAfterFirst(p: string, sep: char, rest: string)
    requires sep !in p
    ensures Split(p + [sep] + rest, sep) == [p] + Split(rest, sep)
  {
    if p == [] {
      assert p + [sep] + rest == [sep] + rest;
      assert ([sep] + rest)[1..] == rest;
    } else {
      assert (p + [sep] + rest)[1..] == p[1..] + [sep] + rest;
      assert sep !in p[1..];
      SplitAfterFirst(p[1..], sep, rest);
      assert [p[0]] + p[1..] == p;
    }
  }

  /** `haystack.includes(needle)`. */
  predicate Contains(haystack: string, needle: string)
  {
    needle <= haystack || (haystack != [] && Contains(haystack[1..], needle))
  }

  /** What `navigate-to` does with a page name: the HTML file it loads, whether it reloads
      ignoring the cache, and whether it forces a repaint instead of just focusing. */
  datatype Load = Load(file: string, reloadIgnoringCache: bool, forceUIRefresh: bool)

  function NavigateTo(page: string): (l: Load)
    ensures l.forceUIRefresh ==> l.reloadIgnoringCache
  {
    var pieces := Split(page, '?');
    var pathWithoutQuery := pieces[0];
    var reload := |pieces| > 1 && pieces[1] != "" && Contains(pieces[1], "fresh=true");
    Load("src/pages/" + pathWithoutQuery + ".html", reload, reload && pathWithoutQuery == "auth/login")
  }

  /** A page name without '?' is loaded as it is, with no cache bypass. */
  lemma PlainPage(page: string)
    requires '?' !in page
    ensures NavigateTo(page) == Load("src/pages/" + page + ".html", false, false)
  {
    SplitWithoutSeparator(page, '?');
  }

  /** With one query segment, the path before '?' names the file, the cache is bypassed
      exactly when the segment contains 'fresh=true', and a repaint is forced only when, in
      addition, the path is the login page. */
  lemma PageWithQuery(path: string, query: string)
    requires '?' !in path && '?' !in query
    ensures NavigateTo(path + ['?'] + query) ==
              Load("src/pages/" + path + ".html", Contains(query, "fresh=true"),
                   Contains(query, "fresh=true") && path == "auth/login")
  {
    SplitAfterFirst(path, '?', query);
    SplitWithoutSeparator(query, '?');
    assert Split(path + ['?'] + query, '?') == [path, query];
    assert Contains(query, "fresh=true") ==> query != "" by {
      if query == "" { assert !("fresh=true" <= query); }
    }
  }

  /** Destructuring keeps only the first two pieces: anything after a second '?' is ignored. */
  lemma ExtraQueryIgnored(path: string, query: string, rest: string)
    requires '?' !in path && '?' !in query
    ensures NavigateTo(path + ['?'] + query + ['?'] + rest) == NavigateTo(path + ['?'] + query)
  {
    SplitAfterFirst(path, '?', query + ['?'] + rest);
    SplitAfterFirst(query, '?', rest);
    assert path + ['?'] + query + ['?'] + rest == path + ['?'] + (query + ['?'] + rest);
    SplitAfterFirst(path, '?', query);
    SplitWithoutSeparator(query, '?');
  }
}
