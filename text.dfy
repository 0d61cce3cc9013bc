/** The few JavaScript string operations the dashboard relies on: white space
    as `String.prototype.trim` and the regex class `\s` see it, `trim`,
    `startsWith` and `includes`.  Case folding (`toLowerCase`) and pt-BR
    collation (`localeCompare`) are not defined here: the modules that need
    them take them as parameters. */
module Text {

  /** ECMAScript WhiteSpace and LineTerminator code points: what `trim()`
      removes and what `\s` matches.  U+00A0 NO-BREAK SPACE is one of them. */
  predicate IsSpace(c: char) {
    || c == '\t' || c == '\n' || c == '\U{000B}' || c == '\U{000C}' || c == '\r'
    || c == ' ' || c == '\U{00A0}' || c == '\U{1680}'
    || ('\U{2000}' <= c <= '\U{200A}')
    || c == '\U{2028}' || c == '\U{2029}' || c == '\U{202F}' || c == '\U{205F}'
    || c == '\U{3000}' || c == '\U{FEFF}'
  }

  predicate NoSpace(s: string) {
    forall i :: 0 <= i < |s| ==> !IsSpace(s[i])
  }

  predicate AllSpace(s: string) {
    forall i :: 0 <= i < |s| ==> IsSpace(s[i])
  }

  /** `s` neither starts nor ends with white space. */
  predicate Trimmed(s: string) {
    s == [] || (!IsSpace(s[0]) && !IsSpace(s[|s| - 1]))
  }

  function TrimStart(s: string): (r: string)
    ensures |r| <= |s| && r == s[|s| - |r|..]
    ensures AllSpace(s[..|s| - |r|])
    ensures r == [] || !IsSpace(r[0])
  {
    if s != [] && IsSpace(s[0]) then TrimStart(s[1..]) else s
  }

  function TrimEnd(s: string): (r: string)
    ensures |r| <= |s| && r == s[..|r|]
    ensures AllSpace(s[|r|..])
    ensures r == [] || !IsSpace(r[|r| - 1])
  {
    if s != [] && IsSpace(s[|s| - 1]) then TrimEnd(s[..|s| - 1]) else s
  }

  lemma TrimStartEmpty(s: string)
    ensures TrimStart(s) == [] <==> AllSpace(s)
  {
    if TrimStart(s) == [] {
      assert s[..|s|] == s;
    }
  }

  lemma TrimEndEmpty(s: string)
    ensures TrimEnd(s) == [] <==> AllSpace(s)
  {
    var r := TrimEnd(s);
    if r == [] {
      assert s[|r|..] == s;
    }
  }

  /** `s.trim()`: the slice of `s` left once the white space at both ends is cut off. */
  function Trim(s: string): (r: string)
    ensures Trimmed(r)
    ensures r == [] <==> AllSpace(s)
  {
    var t := TrimStart(s);
    TrimStartEmpty(s);
    TrimEndEmpty(t);
    assert t == [] || !AllSpace(t);
    var r := TrimEnd(t);
    assert r != [] ==> r[0] == t[0];
    r
  }

  /** Trimming a string that has no white space at its ends changes nothing. */
  lemma TrimFixpoint(s: string)
    requires Trimmed(s)
    ensures Trim(s) == s
  {
  }

  lemma TrimIdempotent(s: string)
    ensures Trim(Trim(s)) == Trim(s)
  {
    TrimFixpoint(Trim(s));
  }

  lemma TrimNoSpace(s: string)
    requires NoSpace(s)
    ensures Trim(s) == s
  {
    TrimFixpoint(s);
  }

  /** `s.startsWith(prefix)`. */
  predicate StartsWith(s: string, prefix: string) {
    prefix <= s
  }

  /** `hay.includes(q)`. */
  predicate Contains(hay: string, q: string)
    decreases |hay|
  {
    q <= hay || (hay != [] && Contains(hay[1..], q))
  }

  /** `q` occurs in `hay` starting at offset `k`. */
  predicate OccursAt(hay: string, q: string, k: int) {
    0 <= k <= |hay| - |q| && hay[k..k + |q|] == q
  }

  /** `includes` holds exactly when `q` occurs in `hay` at some offset. */
  lemma {:induction false} ContainsAt(hay: string, q: string)
    ensures Contains(hay, q) <==> exists k :: OccursAt(hay, q, k)
    decreases |hay|
  {
    if q <= hay {
      assert OccursAt(hay, q, 0);
    } else if hay != [] {
      ContainsAt(hay[1..], q);
      if Contains(hay[1..], q) {
        var k :| OccursAt(hay[1..], q, k);
        assert hay[1..][k..k + |q|] == hay[k + 1..k + 1 + |q|];
        assert OccursAt(hay, q, k + 1);
      }
      if k :| OccursAt(hay, q, k) && k != 0 {
        assert hay[1..][k - 1..k - 1 + |q|] == hay[k..k + |q|];
        assert OccursAt(hay[1..], q, k - 1);
      }
    }
  }
}
