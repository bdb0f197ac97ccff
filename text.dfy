/**
 * The few pieces of .NET string handling that the client's decisions rest on:
 * `char.IsWhiteSpace`, `string.Trim`, `string.IsNullOrWhiteSpace`,
 * `string.Join`, single-character `Replace`, and a `Split` used as the
 * reference inverse of `Join`.
 */
module Text {

  /** `char.IsWhiteSpace`: the Unicode space, line and paragraph separators,
      U+0009..U+000D and U+0085. */
  predicate IsWhiteSpace(c: char) {
    var n := c as int;
    || (0x09 <= n <= 0x0D) || n == 0x20 || n == 0x85 || n == 0xA0 || n == 0x1680
    || (0x2000 <= n <= 0x200A) || n == 0x2028 || n == 0x2029 || n == 0x202F
    || n == 0x205F || n == 0x3000
  }

  /** `string.IsNullOrWhiteSpace` on a non-null string: every character is
      white space (vacuously so for ""). */
  predicate IsNullOrWhiteSpace(s: string) {
    forall i :: 0 <= i < |s| ==> IsWhiteSpace(s[i])
  }

  /** `string.TrimStart()`: the longest suffix of `s` that does not start with white space. */
  function TrimStart(s: string): (r: string)
    ensures |r| <= |s|
    ensures r == [] || !IsWhiteSpace(r[0])
  {
    if s != [] && IsWhiteSpace(s[0]) then TrimStart(s[1..]) else s
  }

  /** `r` is what is left of `s` after dropping some leading characters. */
  predicate IsSuffix(r: string, s: string) {
    |r| <= |s| && forall i :: 0 <= i < |r| ==> r[i] == s[|s| - |r| + i]
  }

  /** What `TrimStart` keeps is a suffix of `s`, and what it drops is white space. */
  lemma {:induction false} TrimStartSuffix(s: string)
    ensures IsSuffix(TrimStart(s), s)
    ensures forall i :: 0 <= i < |s| - |TrimStart(s)| ==> IsWhiteSpace(s[i])
    decreases |s|
  {
    if s != [] && IsWhiteSpace(s[0]) {
      var t := s[1..];
      TrimStartSuffix(t);
      SuffixOfTail(s, TrimStart(t));
    }
  }

  /** A suffix of `s[1..]` is a suffix of `s`. */
  lemma SuffixOfTail(s: string, r: string)
    requires s != [] && IsSuffix(r, s[1..])
    ensures IsSuffix(r, s)
  {
    var t := s[1..];
    forall i | 0 <= i < |r|
      ensures r[i] == s[|s| - |r| + i]
    {
      assert r[i] == t[|t| - |r| + i];
    }
  }

  /** `string.TrimEnd()`: the longest prefix of `s` that does not end with white space. */
  function TrimEnd(s: string): (r: string)
    ensures |r| <= |s| && forall i :: 0 <= i < |r| ==> r[i] == s[i]
    ensures forall i :: |r| <= i < |s| ==> IsWhiteSpace(s[i])
    ensures r == [] || !IsWhiteSpace(r[|r| - 1])
  {
    if s != [] && IsWhiteSpace(s[|s| - 1]) then
      TrimEnd(s[..|s| - 1])
    else
      s
  }

  /** `string.Trim()`: white space removed from both ends. */
  function Trim(s: string): (r: string)
    ensures r == [] || (!IsWhiteSpace(r[0]) && !IsWhiteSpace(r[|r| - 1]))
  {
    var t := TrimStart(s);
    var r := TrimEnd(t);
    assert r == [] || r[0] == t[0];
    r
  }

  /** A blank string trims to "". */
  lemma {:induction false} TrimStartBlank(s: string)
    requires IsNullOrWhiteSpace(s)
    ensures TrimStart(s) == ""
  {
    if s != [] {
      TrimStartBlank(s[1..]);
    }
  }

  /** Trimming yields "" exactly when the string is blank, so on a trimmed
      string `IsNullOrWhiteSpace` is the same test as emptiness. */
  lemma TrimEmptyIffBlank(s: string)
    ensures Trim(s) == "" <==> IsNullOrWhiteSpace(s)
    ensures IsNullOrWhiteSpace(Trim(s)) <==> Trim(s) == ""
  {
    TrimStartSuffix(s);
    if IsNullOrWhiteSpace(s) {
      TrimStartBlank(s);
    }
  }

  /** `r` is the slice of `s` that starts at `k`, and everything of `s` outside
      that slice is white space. */
  predicate WhiteSpaceAround(s: string, k: int, r: string) {
    && 0 <= k && k + |r| <= |s|
    && (forall i :: 0 <= i < |r| ==> r[i] == s[k + i])
    && (forall i :: 0 <= i < k ==> IsWhiteSpace(s[i]))
    && (forall i :: k + |r| <= i < |s| ==> IsWhiteSpace(s[i]))
  }

  /** What `Trim` keeps is the slice of `s` after the leading white space, and
      everything it drops on either side is white space. */
  lemma TrimSlice(s: string)
    ensures WhiteSpaceAround(s, |s| - |TrimStart(s)|, Trim(s))
  {
    TrimStartSuffix(s);
    PrefixOfSuffix(s, TrimStart(s), Trim(s));
  }

  /** A prefix `r` of a suffix `t` of `s`, with only white space between the two
      ends, sits in `s` surrounded by white space. */
  lemma PrefixOfSuffix(s: string, t: string, r: string)
    requires IsSuffix(t, s) && |r| <= |t|
    requires forall i :: 0 <= i < |s| - |t| ==> IsWhiteSpace(s[i])
    requires forall i :: 0 <= i < |r| ==> r[i] == t[i]
    requires forall i :: |r| <= i < |t| ==> IsWhiteSpace(t[i])
    ensures WhiteSpaceAround(s, |s| - |t|, r)
  {
    var k := |s| - |t|;
    forall i | 0 <= i < |r|
      ensures r[i] == s[k + i]
    {
      assert t[i] == s[k + i];
    }
    forall i | k + |r| <= i < |s|
      ensures IsWhiteSpace(s[i])
    {
      assert s[i] == t[i - k];
    }
  }

  /** Trimming twice changes nothing. */
  lemma TrimIdempotent(s: string)
    ensures Trim(Trim(s)) == Trim(s)
  {
    var r := Trim(s);
    assert TrimStart(r) == r;
    assert TrimEnd(r) == r;
  }

  /** `string.Join(sep, xs)`: the elements, with `sep` between consecutive ones. */
  function Join(sep: string, xs: seq<string>): (r: string)
    ensures |xs| >= 1 ==> xs[0] <= r
    ensures sep == "" ==> r == Concat(xs)
    decreases |xs|
  {
    if |xs| == 0 then ""
    else if |xs| == 1 then xs[0]
    else xs[0] + sep + Join(sep, xs[1..])
  }

  /** The elements of `xs` that are not "", in order (LINQ `Where(s => !string.IsNullOrEmpty(s))`). */
  function NonEmpty(xs: seq<string>): (r: seq<string>)
    ensures |r| <= |xs|
    ensures forall x :: x in r ==> x in xs && x != ""
    ensures forall x :: x in xs && x != "" ==> x in r
  {
    if xs == [] then []
    else if xs[0] == "" then NonEmpty(xs[1..])
    else [xs[0]] + NonEmpty(xs[1..])
  }

  /** The filter keeps every non-empty element as often as it occurs, and
      drops every "". */
  lemma {:induction false} NonEmptyCounts(xs: seq<string>)
    ensures multiset(NonEmpty(xs)) == multiset(xs)["" := 0]
    decreases |xs|
  {
    if xs == [] {
      assert multiset(xs)["" := 0] == multiset{};
    } else {
      NonEmptyCounts(xs[1..]);
      assert xs == [xs[0]] + xs[1..];
      assert multiset(xs) == multiset{xs[0]} + multiset(xs[1..]);
    }
  }

  /** The filter works element by element, so it keeps the order: filtering a
      concatenation concatenates the filtered parts. */
  lemma {:induction false} NonEmptyAppend(xs: seq<string>, ys: seq<string>)
    ensures NonEmpty(xs + ys) == NonEmpty(xs) + NonEmpty(ys)
    decreases |xs|
  {
    if xs == [] {
      assert xs + ys == ys;
    } else {
      NonEmptyAppend(xs[1..], ys);
      assert (xs + ys)[0] == xs[0];
      assert (xs + ys)[1..] == xs[1..] + ys;
    }
  }

  /** Splits `s` at every occurrence of `d`; the reference inverse of `Join([d], ·)`. */
  function Split(s: string, d: char): (parts: seq<string>)
    ensures |parts| >= 1
    ensures forall p :: p in parts ==> d !in p
  {
    if s == [] then [""]
    else
      var rest := Split(s[1..], d);
      if s[0] == d then [""] + rest
      else [[s[0]] + rest[0]] + rest[1..]
  }

  /** A `d`-free string followed by `d` peels off as the first part. */
  lemma {:induction false} SplitAfterPiece(a: string, d: char, rest: string)
    requires d !in a
    ensures Split(a + [d] + rest, d) == [a] + Split(rest, d)
    ensures Split(a, d) == [a]
    decreases |a|
  {
    if a == [] {
      assert a + [d] + rest == [d] + rest;
      assert ([d] + rest)[1..] == rest;
    } else {
      SplitAfterPiece(a[1..], d, rest);
      assert (a + [d] + rest)[1..] == a[1..] + [d] + rest;
      assert [a[0]] + a[1..] == a;
    }
  }

  /** Round trip: splitting a join of `d`-free strings gives them back. */
  lemma {:induction false} SplitJoin(xs: seq<string>, d: char)
    requires |xs| >= 1
    requires forall x :: x in xs ==> d !in x
    ensures Split(Join([d], xs), d) == xs
    decreases |xs|
  {
    if |xs| == 1 {
      SplitAfterPiece(xs[0], d, "");
    } else {
      SplitJoin(xs[1..], d);
      SplitAfterPiece(xs[0], d, Join([d], xs[1..]));
      assert [xs[0]] + xs[1..] == xs;
    }
  }

  /** Joining non-empty strings gives "" only when there is nothing to join. */
  lemma {:induction false} JoinEmptyIff(sep: string, xs: seq<string>)
    requires forall x :: x in xs ==> x != ""
    ensures Join(sep, xs) == "" <==> xs == []
  {
    if |xs| >= 1 {
      assert xs[0] in xs;
      assert |Join(sep, xs)| >= |xs[0]|;
    }
  }

  /** Joining is one-to-one on non-empty lists of `d`-free strings. */
  lemma JoinInjective(xs: seq<string>, ys: seq<string>, d: char)
    requires |xs| >= 1 && |ys| >= 1
    requires forall x :: x in xs ==> d !in x
    requires forall y :: y in ys ==> d !in y
    requires Join([d], xs) == Join([d], ys)
    ensures xs == ys
  {
    SplitJoin(xs, d);
    SplitJoin(ys, d);
  }

  /** `s.Replace(c.ToString(), with)`: every occurrence of the character `c` replaced. */
  function ReplaceChar(s: string, c: char, with: string): (r: string)
    ensures |with| == 1 ==> |r| == |s|
    ensures with == [c] ==> r == s
  {
    if s == [] then ""
    else (if s[0] == c then with else [s[0]]) + ReplaceChar(s[1..], c, with)
  }

  /** The pieces of `xs` one after another, with nothing between them. */
  function Concat(xs: seq<string>): (r: string)
    decreases |xs|
  {
    if xs == [] then "" else xs[0] + Concat(xs[1..])
  }

  /** Replacing a character distributes over concatenation. */
  lemma {:induction false} ReplaceCharAppend(a: string, b: string, c: char, with: string)
    ensures ReplaceChar(a + b, c, with) == ReplaceChar(a, c, with) + ReplaceChar(b, c, with)
    decreases |a|
  {
    if a != [] {
      ReplaceCharAppend(a[1..], b, c, with);
      assert (a + b)[1..] == a[1..] + b;
    } else {
      assert a + b == b;
    }
  }

  /** Deleting the separator from a join of separator-free pieces leaves their
      concatenation (`Join(sep, xs).Replace(sep, "")` for a one-character `sep`). */
  lemma {:induction false} RemoveSeparator(xs: seq<string>, d: char)
    requires forall x :: x in xs ==> d !in x
    ensures ReplaceChar(Join([d], xs), d, "") == Concat(xs)
    decreases |xs|
  {
    if |xs| == 1 {
      assert xs[0] in xs;
      ReplaceCharRemoves(xs[0], d, "");
      assert Concat(xs) == xs[0] + Concat([]);
    } else if |xs| > 1 {
      assert xs[0] in xs;
      ReplaceCharRemoves(xs[0], d, "");
      RemoveSeparator(xs[1..], d);
      ReplaceCharAppend(xs[0] + [d], Join([d], xs[1..]), d, "");
      ReplaceCharAppend(xs[0], [d], d, "");
      assert ReplaceChar([d], d, "") == "" + ReplaceChar([], d, "");
    }
  }

  /** After the replacement the character is gone, unless the replacement text
      brings it back; a string without the character is left as it is. */
  lemma {:induction false} ReplaceCharRemoves(s: string, c: char, with: string)
    ensures c !in with ==> c !in ReplaceChar(s, c, with)
    ensures c !in s ==> ReplaceChar(s, c, with) == s
    decreases |s|
  {
    if s != [] {
      ReplaceCharRemoves(s[1..], c, with);
      assert s == [s[0]] + s[1..];
    }
  }
}
