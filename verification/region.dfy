/**
  The administrative region code inside a citizen identification number
  (GB/T 2260) and the two static utilities of `IDCard` that work on it:
  `isRegionExists` and `transformRegionName`.

  A code `PPCCXX` names a province (`PP0000`), a prefecture (`PPCC00`) or a
  county. The region table maps codes to display names; it is an immutable
  parameter here.
*/
module Region {
  import Checksum

  type RegionTable = map<string, string>

  /** The name used for a province or region missing from the table ("unknown"). */
  const Unknown: string := "未知"

  /** `substr(s, 0, n)`: the first `n` characters, or all of `s` when it is shorter. */
  function Prefix(s: string, n: nat): (p: string)
    ensures |s| >= n ==> |p| == n
    ensures |s| < n ==> p == s
    ensures p <= s
  {
    if |s| <= n then s else s[..n]
  }

  /** The province pseudo-code `PP0000`. */
  function ProvinceCode(code: string): string {
    Prefix(code, 2) + "0000"
  }

  /** The prefecture pseudo-code `PPCC00`. */
  function PrefectureCode(code: string): string {
    Prefix(code, 4) + "00"
  }

  /** The county code probed for suffix digit `d`: the first five characters followed by `d`. */
  function CountyCandidate(code: string, d: nat): string
    requires d < 10
  {
    Prefix(code, 5) + [('0' as int + d) as char]
  }

  /** The loop `for ($i = 0; $i < 9; $i++)` of `isRegionExists`, from `$i == from` on. */
  function ProbeCounties(table: RegionTable, code: string, from: nat): (found: bool)
    requires from <= 9
    ensures found <==> exists d :: from <= d < 9 && CountyCandidate(code, d) in table
    decreases 9 - from
  {
    if from == 9 then false
    else CountyCandidate(code, from) in table || ProbeCounties(table, code, from + 1)
  }

  /** `isRegionExists`: an exact hit; otherwise, when the province is known,
      a county with the same first five characters and suffix `0`..`8`. */
  function IsRegionExists(table: RegionTable, code: string): (known: bool)
    ensures code in table ==> known
    ensures code !in table && ProvinceCode(code) !in table ==> !known
    ensures code !in table && ProvinceCode(code) in table ==>
              (known <==> exists d :: 0 <= d < 9 && CountyCandidate(code, d) in table)
  {
    if code in table then true
    else if ProvinceCode(code) !in table then false
    else ProbeCounties(table, code, 0)
  }

  predicate IsDigitCode(code: string) {
    |code| == 6 && forall i :: 0 <= i < 6 ==> Checksum.IsDigit(code[i])
  }

  /** For a six-character code, existence without reference to how the loop
      builds its probes: an exact hit, or a known province and some table key
      of six characters that agrees on the first five and ends in `0`..`8`. */
  lemma RegionExistsCharacterization(table: RegionTable, code: string)
    requires |code| == 6
    ensures IsRegionExists(table, code) <==>
              || code in table
              || (&& ProvinceCode(code) in table
                  && exists k :: k in table && |k| == 6 && k[..5] == code[..5] && '0' <= k[5] <= '8')
  {
    if code !in table && ProvinceCode(code) in table {
      if IsRegionExists(table, code) {
        var d :| 0 <= d < 9 && CountyCandidate(code, d) in table;
        var k := CountyCandidate(code, d);
        assert |k| == 6 && k[..5] == code[..5] && '0' <= k[5] <= '8';
      }
      if exists k :: k in table && |k| == 6 && k[..5] == code[..5] && '0' <= k[5] <= '8' {
        var k :| k in table && |k| == 6 && k[..5] == code[..5] && '0' <= k[5] <= '8';
        var d := k[5] as int - '0' as int;
        assert CountyCandidate(code, d) == k;
      }
    }
  }

  /** The suffix `9` is never probed: a code missing from the table whose only
      relative with the same five-character prefix ends in `9` does not exist. */
  lemma NineNeverProbed(table: RegionTable, code: string)
    requires |code| == 6 && code !in table
    requires forall k :: k in table && |k| == 6 && k[..5] == code[..5] ==> k[5] == '9'
    ensures !IsRegionExists(table, code)
  {
    RegionExistsCharacterization(table, code);
  }

  /** Adding entries to the table never makes an existing region disappear. */
  lemma RegionExistsMonotone(small: RegionTable, large: RegionTable, code: string)
    requires small.Keys <= large.Keys
    ensures IsRegionExists(small, code) ==> IsRegionExists(large, code)
  {
    if IsRegionExists(small, code) && code !in small {
      var d :| 0 <= d < 9 && CountyCandidate(code, d) in small;
      assert CountyCandidate(code, d) in large;
    }
  }

  /** An unknown province makes every code under it that is not itself in the
      table non-existent. */
  lemma UnknownProvinceHasNoRegions(table: RegionTable, province: string, code: string)
    requires |province| == 2 && province + "0000" !in table
    requires |code| == 6 && code[..2] == province && code !in table
    ensures !IsRegionExists(table, code)
  {
    assert ProvinceCode(code) == province + "0000";
  }

  // ---------------------------------------------------------------------------
  // Region names.

  /** A table lookup that falls back to `default` for a missing key. */
  function NameOr(table: RegionTable, key: string, default: string): string {
    if key in table then table[key] else default
  }

  /** `transformRegionName`: "{province} {prefecture }{region}", the province
      and region defaulting to "未知" and a missing prefecture left out. */
  function TransformRegionName(table: RegionTable, code: string): (name: string)
    ensures NameOr(table, ProvinceCode(code), Unknown) + " " <= name
    ensures |name| > |NameOr(table, code, Unknown)|
    ensures name[|name| - |NameOr(table, code, Unknown)|..] == NameOr(table, code, Unknown)
  {
    var regionName := NameOr(table, code, Unknown);
    var prefectureSegment :=
      if PrefectureCode(code) in table then table[PrefectureCode(code)] + " " else "";
    var provinceName := NameOr(table, ProvinceCode(code), Unknown);
    provinceName + " " + prefectureSegment + regionName
  }

  predicate NoSpace(s: string) {
    forall i :: 0 <= i < |s| ==> s[i] != ' '
  }

  /** Splits at every space. */
  function SplitOnSpace(s: string): (parts: seq<string>)
    ensures |parts| >= 1
    decreases |s|
  {
    if |s| == 0 then [""]
    else
      var rest := SplitOnSpace(s[1..]);
      if s[0] == ' ' then [""] + rest else [[s[0]] + rest[0]] + rest[1..]
  }

  lemma {:induction false} SplitWithoutSpace(a: string)
    requires NoSpace(a)
    ensures SplitOnSpace(a) == [a]
    decreases |a|
  {
    if |a| > 0 {
      SplitWithoutSpace(a[1..]);
      assert [a[0]] + a[1..] == a;
    }
  }

  lemma {:induction false} SplitAtFirstSpace(a: string, b: string)
    requires NoSpace(a)
    ensures SplitOnSpace(a + " " + b) == [a] + SplitOnSpace(b)
    decreases |a|
  {
    if |a| == 0 {
      assert a + " " + b == [' '] + b;
      assert (a + " " + b)[1..] == b;
    } else {
      assert (a + " " + b)[1..] == a[1..] + " " + b;
      SplitAtFirstSpace(a[1..], b);
      assert [a[0]] + a[1..] == a;
    }
  }

  /** The levels a region name is composed of: the province (or "未知"), the
      prefecture only when the table has it, the region (or "未知"). */
  function NameLevels(table: RegionTable, code: string): seq<string> {
    [NameOr(table, ProvinceCode(code), Unknown)]
    + (if PrefectureCode(code) in table then [table[PrefectureCode(code)]] else [])
    + [NameOr(table, code, Unknown)]
  }

  lemma SplitThreeLevels(p: string, middle: string, r: string)
    requires NoSpace(p) && NoSpace(r)
    requires middle == "" || (|middle| > 0 && middle[|middle| - 1] == ' ' && NoSpace(middle[..|middle| - 1]))
    ensures SplitOnSpace(p + " " + middle + r) ==
              [p] + (if middle == "" then [] else [middle[..|middle| - 1]]) + [r]
  {
    SplitWithoutSpace(r);
    if middle == "" {
      assert p + " " + middle + r == p + " " + r;
      SplitAtFirstSpace(p, r);
    } else {
      var f := middle[..|middle| - 1];
      assert middle == f + " ";
      assert p + " " + middle + r == p + " " + (f + " " + r);
      SplitAtFirstSpace(f, r);
      SplitAtFirstSpace(p, f + " " + r);
    }
  }

  /** Round trip: when no name holds a space, splitting the composed name at
      its spaces gives back exactly the levels that were found, in order. */
  lemma RegionNameSplitsIntoLevels(table: RegionTable, code: string)
    requires forall k :: k in table ==> NoSpace(table[k])
    ensures SplitOnSpace(TransformRegionName(table, code)) == NameLevels(table, code)
  {
    var p := NameOr(table, ProvinceCode(code), Unknown);
    var r := NameOr(table, code, Unknown);
    assert NoSpace(Unknown);
    assert NoSpace(p) && NoSpace(r);
    if PrefectureCode(code) in table {
      var f := table[PrefectureCode(code)];
      assert NoSpace(f);
      assert (f + " ")[..|f + " "| - 1] == f;
      SplitThreeLevels(p, f + " ", r);
    } else {
      SplitThreeLevels(p, "", r);
    }
  }

  /** A code none of whose levels is in the table is named "未知 未知". */
  lemma UnknownCodeName(table: RegionTable, code: string)
    requires code !in table && ProvinceCode(code) !in table && PrefectureCode(code) !in table
    ensures TransformRegionName(table, code) == "未知 未知"
  {
  }

  /** The all-zero code: it is its own province and prefecture pseudo-code, so
      unless the table lists it, it does not exist and is named "未知 未知". */
  lemma AllZeroCode(table: RegionTable)
    requires "000000" !in table
    ensures !IsRegionExists(table, "000000")
    ensures TransformRegionName(table, "000000") == "未知 未知"
  {
    assert ProvinceCode("000000") == "000000";
    assert PrefectureCode("000000") == "000000";
  }

  /** A province-level code is also its own prefecture code, so its name
      repeats the province three times ("北京市 北京市 北京市" for 110000). */
  lemma ProvinceCodeNameRepeats(table: RegionTable, code: string)
    requires |code| == 6 && code[2..] == "0000" && code in table
    ensures TransformRegionName(table, code) == table[code] + " " + table[code] + " " + table[code]
  {
    assert ProvinceCode(code) == code;
    assert PrefectureCode(code) == code;
  }
}
