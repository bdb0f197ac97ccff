/**
 * The device identifier of `Hwid.Get`: three hardware attributes, the
 * non-empty ones joined with `|` in the fixed order processor, BIOS, disk,
 * hashed with SHA-256, written as hexadecimal and cut to 16 characters.
 * The UTF-8 encoder and SHA-256 are parameters of the model: library code
 * whose only property used here is that a SHA-256 digest has 32 bytes.
 */
module Hwid {
  import opened Wrappers
  import opened Text

  type byte = x: int | 0 <= x < 256

  /** A SHA-256 digest. */
  type Digest = d: seq<byte> | |d| == 32 witness seq(32, i => 0)

  /** The upper-case hexadecimal digit of `k`, 0-9 then A-F. */
  function UpperDigit(k: int): char
    requires 0 <= k < 16
  {
    if k < 10 then ('0' as int + k) as char else ('A' as int + k - 10) as char
  }

  /** The lower-case hexadecimal digit of `k`, 0-9 then a-f. */
  function LowerDigit(k: int): char
    requires 0 <= k < 16
  {
    if k < 10 then ('0' as int + k) as char else ('a' as int + k - 10) as char
  }

  /** A character of `0-9a-f`. */
  predicate IsLowerDigit(c: char) {
    '0' <= c <= '9' || 'a' <= c <= 'f'
  }

  /** The length of the identifier: `[..16]`. */
  const IdLength: nat := 16

  /** One attribute, `QueryWmi(...)?.Trim() ?? ""`: the trimmed query result,
      or "" when the query failed or found nothing. */
  function Attribute(query: Option<string>): (a: string)
    ensures a == "" <==> query.None? || IsNullOrWhiteSpace(query.value)
    ensures a == [] || (!IsWhiteSpace(a[0]) && !IsWhiteSpace(a[|a| - 1]))
    ensures query.Some? ==> a == Trim(query.value)
  {
    if query.Some? then
      TrimEmptyIffBlank(query.value);
      Trim(query.value)
    else
      ""
  }

  /** `string.Join("|", parts.Where(s => !string.IsNullOrEmpty(s)))` over
      processor, BIOS and disk, in that order. */
  function Combined(cpu: string, bios: string, disk: string): (c: string)
    ensures c == "" <==> cpu == "" && bios == "" && disk == ""
  {
    NonEmptyParts(cpu, bios, disk);
    JoinEmptyIff("|", NonEmpty([cpu, bios, disk]));
    Join("|", NonEmpty([cpu, bios, disk]))
  }

  /** The two hexadecimal digits of a byte, as `BitConverter.ToString` writes them. */
  function UpperPair(b: byte): (p: string)
  {
    [UpperDigit(b / 16), UpperDigit(b % 16)]
  }

  /** The two lower-case hexadecimal digits of a byte. */
  function LowerPair(b: byte): (p: string)
  {
    [LowerDigit(b / 16), LowerDigit(b % 16)]
  }

  function UpperPairs(bytes: seq<byte>): (ps: seq<string>)
    ensures |ps| == |bytes|
    ensures forall i :: 0 <= i < |ps| ==> ps[i] == UpperPair(bytes[i])
  {
    if bytes == [] then [] else [UpperPair(bytes[0])] + UpperPairs(bytes[1..])
  }

  /** `BitConverter.ToString(bytes)`: upper-case pairs separated by `-`, as in "0A-FF-3C". */
  function BitConverterToString(bytes: seq<byte>): (s: string)
    ensures bytes == [] ==> s == ""
    ensures bytes != [] ==> |s| == 3 * |bytes| - 1
  {
    DashJoinLength(UpperPairs(bytes));
    Join("-", UpperPairs(bytes))
  }

  /** Pairs joined with single dashes: three characters per pair, less one. */
  lemma {:induction false} DashJoinLength(ps: seq<string>)
    requires forall i :: 0 <= i < |ps| ==> |ps[i]| == 2
    ensures ps != [] ==> |Join("-", ps)| == 3 * |ps| - 1
    decreases |ps|
  {
    if |ps| > 1 {
      DashJoinLength(ps[1..]);
    }
  }

  /** `ToLower()` on the characters that occur here: ASCII capitals become small
      letters, everything else is kept. */
  function ToLower(s: string): (r: string)
    ensures |r| == |s|
    ensures forall i :: 0 <= i < |s| ==> r[i] == LowerChar(s[i])
  {
    if s == [] then [] else [LowerChar(s[0])] + ToLower(s[1..])
  }

  function LowerChar(c: char): char {
    if 'A' <= c <= 'Z' then (c as int + 32) as char else c
  }

  /** The reference encoding: each byte as two lower-case hexadecimal digits. */
  function LowerHex(bytes: seq<byte>): (s: string)
    ensures |s| == 2 * |bytes|
    ensures forall i :: 0 <= i < |s| ==> IsLowerDigit(s[i])
  {
    if bytes == [] then "" else LowerPair(bytes[0]) + LowerHex(bytes[1..])
  }

  /** `Hwid.Get` on the three query results. */
  function Get(cpuQuery: Option<string>, biosQuery: Option<string>, diskQuery: Option<string>,
               utf8: string -> seq<byte>, sha256: seq<byte> -> Digest): (id: string)
    ensures |id| == IdLength
    ensures forall i :: 0 <= i < |id| ==> IsLowerDigit(id[i])
    ensures id == LowerHex(sha256(utf8(Combined(Attribute(cpuQuery), Attribute(biosQuery), Attribute(diskQuery))))[..8])
  {
    var combined := Combined(Attribute(cpuQuery), Attribute(biosQuery), Attribute(diskQuery));
    var hash := sha256(utf8(combined));
    HexChain(hash);
    LowerHexPrefix(hash, 8);
    ToLower(ReplaceChar(BitConverterToString(hash), '-', ""))[..IdLength]
  }

  /** `ToLower` distributes over concatenation. */
  lemma ToLowerAppend(a: string, b: string)
    ensures ToLower(a + b) == ToLower(a) + ToLower(b)
  {
  }

  /** The `ToString`, `Replace("-", "")`, `ToLower()` chain is the lower-case
      hexadecimal encoding. */
  lemma {:induction false} HexChain(bytes: seq<byte>)
    ensures ToLower(ReplaceChar(BitConverterToString(bytes), '-', "")) == LowerHex(bytes)
    decreases |bytes|
  {
    var ps := UpperPairs(bytes);
    forall p | p in ps ensures '-' !in p {
      var i :| 0 <= i < |ps| && ps[i] == p;
      assert p == UpperPair(bytes[i]);
    }
    RemoveSeparator(ps, '-');
    ConcatUpperPairs(bytes);
  }

  lemma {:induction false} ConcatUpperPairs(bytes: seq<byte>)
    ensures ToLower(Concat(UpperPairs(bytes))) == LowerHex(bytes)
    decreases |bytes|
  {
    if bytes != [] {
      ConcatUpperPairs(bytes[1..]);
      var ps := UpperPairs(bytes);
      assert ps[1..] == UpperPairs(bytes[1..]);
      ToLowerAppend(ps[0], Concat(ps[1..]));
      assert ToLower(UpperPair(bytes[0])) == LowerPair(bytes[0]);
    }
  }

  /** The first `2k` digits encode the first `k` bytes. */
  lemma {:induction false} LowerHexPrefix(bytes: seq<byte>, k: nat)
    requires k <= |bytes|
    ensures LowerHex(bytes)[..2 * k] == LowerHex(bytes[..k])
    decreases k
  {
    if k > 0 {
      LowerHexPrefix(bytes[1..], k - 1);
      assert bytes[..k][1..] == bytes[1..][..k - 1];
    }
  }

  /** The value of one lower-case hexadecimal digit. */
  function DigitValue(c: char): (v: nat)
    requires IsLowerDigit(c)
    ensures v < 16 && LowerDigit(v) == c
  {
    if '0' <= c <= '9' then c as int - '0' as int else c as int - 'a' as int + 10
  }

  lemma DigitValueOf(v: nat)
    requires v < 16
    ensures DigitValue(LowerDigit(v)) == v
  {
  }

  /** The reference decoder: two lower-case hexadecimal digits to a byte;
      `None` for text of odd length or with any other character. */
  function ParseLowerHex(s: string): (bytes: Option<seq<byte>>)
    ensures bytes.Some? ==> |bytes.value| * 2 == |s|
    decreases |s|
  {
    if s == [] then Some([])
    else if |s| == 1 || !IsLowerDigit(s[0]) || !IsLowerDigit(s[1]) then None
    else
      match ParseLowerHex(s[2..])
      case None => None
      case Some(rest) => Some([DigitValue(s[0]) * 16 + DigitValue(s[1])] + rest)
  }

  /** The decoder accepts only text of even length made of `0-9a-f`. */
  lemma {:induction false} ParseLowerHexAccepts(s: string)
    requires ParseLowerHex(s).Some?
    ensures |s| % 2 == 0
    ensures forall i :: 0 <= i < |s| ==> IsLowerDigit(s[i])
    decreases |s|
  {
    if s != [] {
      var t := s[2..];
      ParseLowerHexAccepts(t);
      forall i | 2 <= i < |s|
        ensures IsLowerDigit(s[i])
      {
        assert s[i] == t[i - 2];
      }
    }
  }

  lemma PairRoundTrip(b: byte)
    ensures DigitValue(LowerPair(b)[0]) * 16 + DigitValue(LowerPair(b)[1]) == b
  {
    DigitValueOf(b / 16);
    DigitValueOf(b % 16);
  }

  /** Decoding reads the first pair, then the rest. */
  lemma ParseLowerHexCons(p: string, rest: string)
    requires |p| == 2 && IsLowerDigit(p[0]) && IsLowerDigit(p[1])
    ensures ParseLowerHex(rest).Some? ==>
      ParseLowerHex(p + rest) == Some([DigitValue(p[0]) * 16 + DigitValue(p[1])] + ParseLowerHex(rest).value)
  {
    var s := p + rest;
    assert s[0] == p[0] && s[1] == p[1];
    assert s[2..] == rest;
  }

  /** Decoding undoes the encoding: no two byte strings share an encoding. */
  lemma {:induction false} ParseLowerHexRoundTrip(bytes: seq<byte>)
    ensures ParseLowerHex(LowerHex(bytes)) == Some(bytes)
    decreases |bytes|
  {
    if bytes != [] {
      var p := LowerPair(bytes[0]);
      var rest := LowerHex(bytes[1..]);
      assert LowerHex(bytes) == p + rest;
      ParseLowerHexRoundTrip(bytes[1..]);
      ParseLowerHexCons(p, rest);
      PairRoundTrip(bytes[0]);
      assert [bytes[0]] + bytes[1..] == bytes;
    }
  }

  /** The identifier is the first 8 digest bytes, two digits each: decoding it
      gives them back. */
  lemma IdentifierEncodesDigestPrefix(cpuQuery: Option<string>, biosQuery: Option<string>, diskQuery: Option<string>,
                                      utf8: string -> seq<byte>, sha256: seq<byte> -> Digest)
    ensures var combined := Combined(Attribute(cpuQuery), Attribute(biosQuery), Attribute(diskQuery));
      ParseLowerHex(Get(cpuQuery, biosQuery, diskQuery, utf8, sha256)) == Some(sha256(utf8(combined))[..8])
  {
    var combined := Combined(Attribute(cpuQuery), Attribute(biosQuery), Attribute(diskQuery));
    ParseLowerHexRoundTrip(sha256(utf8(combined))[..8]);
  }

  lemma NonEmptyCons(x: string, xs: seq<string>)
    ensures NonEmpty([x] + xs) == (if x == "" then [] else [x]) + NonEmpty(xs)
  {
    assert ([x] + xs)[1..] == xs;
  }

  /** `NonEmpty` on the three attributes, spelled out. */
  lemma NonEmptyParts(a: string, b: string, c: string)
    ensures NonEmpty([a, b, c])
      == (if a == "" then [] else [a]) + (if b == "" then [] else [b]) + (if c == "" then [] else [c])
  {
    assert [a, b, c] == [a] + [b, c];
    assert [b, c] == [b] + [c];
    assert [c] == [c] + [];
    NonEmptyCons(a, [b, c]);
    NonEmptyCons(b, [c]);
    NonEmptyCons(c, []);
  }

  /** A query that fails, or returns only white space, contributes nothing: the
      identifier is computed from the other two attributes alone. */
  lemma BlankAttributeDropped(cpuQuery: Option<string>, bios: string, disk: string)
    requires cpuQuery.None? || IsNullOrWhiteSpace(cpuQuery.value)
    ensures Combined(Attribute(cpuQuery), bios, disk) == Join("|", NonEmpty([bios, disk]))
  {
    assert [Attribute(cpuQuery), bios, disk] == [""] + [bios, disk];
    NonEmptyCons("", [bios, disk]);
  }

  /** Splitting the combined string at `|` gives back the non-empty attributes in
      the order processor, BIOS, disk, provided none of them contains `|`. */
  lemma CombinedSplits(cpu: string, bios: string, disk: string)
    requires '|' !in cpu && '|' !in bios && '|' !in disk
    requires cpu != "" || bios != "" || disk != ""
    ensures Split(Combined(cpu, bios, disk), '|') == NonEmpty([cpu, bios, disk])
  {
    NonEmptyParts(cpu, bios, disk);
    SplitJoin(NonEmpty([cpu, bios, disk]), '|');
  }

  /** With all three attributes present and free of `|`, the combined string
      determines them, in order: swapping two different attributes changes it. */
  lemma CombinedInjective(cpu: string, bios: string, disk: string, cpu': string, bios': string, disk': string)
    requires cpu != "" && bios != "" && disk != "" && cpu' != "" && bios' != "" && disk' != ""
    requires '|' !in cpu && '|' !in bios && '|' !in disk && '|' !in cpu' && '|' !in bios' && '|' !in disk'
    requires Combined(cpu, bios, disk) == Combined(cpu', bios', disk')
    ensures cpu == cpu' && bios == bios' && disk == disk'
  {
    CombinedSplits(cpu, bios, disk);
    CombinedSplits(cpu', bios', disk');
    NonEmptyParts(cpu, bios, disk);
    NonEmptyParts(cpu', bios', disk');
    assert [cpu] + [bios] + [disk] == [cpu, bios, disk];
    assert [cpu'] + [bios'] + [disk'] == [cpu', bios', disk'];
  }

  /** Dropping empty attributes loses their positions: a BIOS serial and a disk
      serial of the same text give the same identifier when the other is empty. */
  lemma EmptyAttributePositionLost(cpu: string, serial: string)
    ensures Combined(cpu, serial, "") == Combined(cpu, "", serial)
  {
    NonEmptyParts(cpu, serial, "");
    NonEmptyParts(cpu, "", serial);
    var c: seq<string> := if cpu == "" then [] else [cpu];
    var t: seq<string> := if serial == "" then [] else [serial];
    assert c + t + [] == c + [] + t;
  }
}
