/** The handful of PHP string primitives the localization code relies on. */
module PhpStrings {

  /** PHP's `empty()` (and falsiness) on a string: only "" and "0" are empty. */
  predicate IsEmpty(s: string) {
    s == "" || s == "0"
  }

  const Slash: set<char> := {'/'}

  /** The characters `rtrim` strips when given no character list. */
  const Whitespace: set<char> := {' ', '\t', '\n', '\r', '\0', '\U{000B}'}

  predicate HasPrefix(s: string, p: string) {
    |p| <= |s| && s[..|p|] == p
  }

  /** `ltrim(s, cs)`: drop every leading character that belongs to `cs`. */
  function TrimLeft(s: string, cs: set<char>): (r: string)
    ensures |r| <= |s| && r == s[|s| - |r|..]
    ensures forall i :: 0 <= i < |s| - |r| ==> s[i] in cs
    ensures r == [] || r[0] !in cs
  {
    if s != [] && s[0] in cs then TrimLeft(s[1..], cs) else s
  }

  /** `rtrim(s, cs)`: drop every trailing character that belongs to `cs`. */
  function TrimRight(s: string, cs: set<char>): (r: string)
    ensures |r| <= |s| && r == s[..|r|]
    ensures forall i :: |r| <= i < |s| ==> s[i] in cs
    ensures r == [] || r[|r| - 1] !in cs
  {
    if s != [] && s[|s| - 1] in cs then TrimRight(s[..|s| - 1], cs) else s
  }

  /** `trim` on both ends with the same character list, as `ltrim` followed by `rtrim`. */
  function TrimBoth(s: string, cs: set<char>): (r: string)
    ensures r == [] || (r[0] !in cs && r[|r| - 1] !in cs)
  {
    TrimRight(TrimLeft(s, cs), cs)
  }

  lemma TrimLeftNoop(s: string, cs: set<char>)
    requires s == [] || s[0] !in cs
    ensures TrimLeft(s, cs) == s
  {
  }

  lemma TrimRightNoop(s: string, cs: set<char>)
    requires s == [] || s[|s| - 1] !in cs
    ensures TrimRight(s, cs) == s
  {
  }

  lemma TrimBothNoop(s: string, cs: set<char>)
    requires s == [] || (s[0] !in cs && s[|s| - 1] !in cs)
    ensures TrimBoth(s, cs) == s
  {
    TrimLeftNoop(s, cs);
    TrimRightNoop(s, cs);
  }

  /** `rtrim` of a concatenation whose second part starts with a kept character trims only that part. */
  lemma {:induction false} TrimRightAppend(a: string, b: string, cs: set<char>)
    requires b != [] && b[0] !in cs
    ensures TrimRight(a + b, cs) == a + TrimRight(b, cs)
    decreases |b|
  {
    var s := a + b;
    assert s[|s| - 1] == b[|b| - 1];
    if b[|b| - 1] in cs {
      var b' := b[..|b| - 1];
      assert |b| > 1 && b'[0] == b[0];
      assert s[..|s| - 1] == a + b';
      TrimRightAppend(a, b', cs);
    }
  }

  /** Position of the first occurrence of `c` in `s`. */
  function IndexOf(s: string, c: char): (i: nat)
    requires c in s
    ensures i < |s| && s[i] == c
    ensures c !in s[..i]
  {
    if s[0] == c then 0 else 1 + IndexOf(s[1..], c)
  }

  /** `explode(sep, s)` for a one-character separator. */
  function Explode(s: string, sep: char): (parts: seq<string>)
    ensures |parts| >= 1
    ensures forall i :: 0 <= i < |parts| ==> sep !in parts[i]
    ensures Implode(parts, sep) == s
    decreases |s|
  {
    if sep !in s then [s]
    else
      var i := IndexOf(s, sep);
      assert s == s[..i] + [sep] + s[i + 1..];
      [s[..i]] + Explode(s[i + 1..], sep)
  }

  /** `implode(sep, parts)`: the parts separated by `sep`. */
  function Implode(parts: seq<string>, sep: char): string
    requires |parts| >= 1
  {
    if |parts| == 1 then parts[0] else parts[0] + [sep] + Implode(parts[1..], sep)
  }

  /** Splitting an imploded list gives the list back, provided no part holds the separator. */
  lemma {:induction false} ExplodeImplode(parts: seq<string>, sep: char)
    requires |parts| >= 1
    requires forall i :: 0 <= i < |parts| ==> sep !in parts[i]
    ensures Explode(Implode(parts, sep), sep) == parts
    decreases |parts|
  {
    if |parts| == 1 {
    } else {
      var s := Implode(parts, sep);
      var rest := Implode(parts[1..], sep);
      assert s == parts[0] + [sep] + rest;
      assert sep in s by { assert s[|parts[0]|] == sep; }
      var i := IndexOf(s, sep);
      assert forall j :: 0 <= j < |parts[0]| ==> s[j] == parts[0][j];
      assert s[|parts[0]|] == sep;
      assert i == |parts[0]| by {
        assert i <= |parts[0]| by {
          assert forall j :: 0 <= j < i ==> s[..i][j] == s[j];
        }
      }
      assert s[..i] == parts[0];
      assert s[i + 1..] == rest;
      ExplodeImplode(parts[1..], sep);
    }
  }

  /** `str_replace(pat, rep, s)`: every non-overlapping occurrence of `pat`, scanned left to right, becomes `rep`. */
  function ReplaceAll(s: string, pat: string, rep: string): string
    requires |pat| > 0
    decreases |s|
  {
    if |s| < |pat| then s
    else if s[..|pat|] == pat then rep + ReplaceAll(s[|pat|..], pat, rep)
    else [s[0]] + ReplaceAll(s[1..], pat, rep)
  }

  /** A stretch that never holds the pattern's first character passes through `str_replace` unchanged. */
  lemma {:induction false} ReplaceAllSkips(a: string, t: string, pat: string, rep: string)
    requires |pat| > 0
    requires pat[0] !in a
    ensures ReplaceAll(a + t, pat, rep) == a + ReplaceAll(t, pat, rep)
    decreases |a|
  {
    if a != [] {
      var s := a + t;
      if |s| >= |pat| {
        assert s[..|pat|][0] == a[0] && a[0] != pat[0];
        assert s[..|pat|] != pat;
        assert s[1..] == a[1..] + t;
        ReplaceAllSkips(a[1..], t, pat, rep);
        assert ReplaceAll(s, pat, rep) == [a[0]] + (a[1..] + ReplaceAll(t, pat, rep));
        assert a == [a[0]] + a[1..];
      } else {
        assert ReplaceAll(t, pat, rep) == t;
      }
    } else {
      assert a + t == t;
    }
  }

  /** An occurrence at the front is replaced. */
  lemma ReplaceAllFront(t: string, pat: string, rep: string)
    requires |pat| > 0
    ensures ReplaceAll(pat + t, pat, rep) == rep + ReplaceAll(t, pat, rep)
  {
    assert (pat + t)[..|pat|] == pat;
    assert (pat + t)[|pat|..] == t;
  }

  /** A one-character `str_replace`: position by position, `from` becomes `to` and nothing else changes. */
  lemma {:induction false} ReplaceCharPointwise(s: string, from: char, to: char)
    ensures |ReplaceAll(s, [from], [to])| == |s|
    ensures forall i :: 0 <= i < |s| ==>
      ReplaceAll(s, [from], [to])[i] == (if s[i] == from then to else s[i])
    decreases |s|
  {
    if s != [] {
      ReplaceCharPointwise(s[1..], from, to);
      var r := ReplaceAll(s, [from], [to]);
      var r' := ReplaceAll(s[1..], [from], [to]);
      assert r == (if s[0] == from then [to] else [s[0]]) + r';
    }
  }

  /** Imploding a list with one more part at the end adds the separator and that part. */
  lemma {:induction false} ImplodeSnoc(parts: seq<string>, last: string, sep: char)
    requires |parts| >= 1
    ensures Implode(parts + [last], sep) == Implode(parts, sep) + [sep] + last
    decreases |parts|
  {
    var all := parts + [last];
    assert all[1..] == parts[1..] + [last];
    if |parts| > 1 {
      ImplodeSnoc(parts[1..], last, sep);
    } else {
      assert all[1..] == [last];
    }
  }
}
