/** File and folder names as the renaming script reads and builds them:
    digit-only folder names and their integer value, the decimal text of an
    image index, the two target-name patterns, and Python's ordering of
    strings, which `sorted` uses for the image snapshot. */
module FileNames {

  /** An ASCII decimal digit. */
  predicate IsDigit(c: char) {
    '0' <= c <= '9'
  }

  predicate AllDigits(s: string) {
    forall i :: 0 <= i < |s| ==> IsDigit(s[i])
  }

  /** `str.isdigit()` restricted to ASCII: non-empty and digits only. */
  predicate IsDigitName(s: string) {
    |s| > 0 && AllDigits(s)
  }

  /** A folder name that passes the script's `isdigit` filter. */
  type DigitName = s: string | IsDigitName(s) witness "0"

  function DigitToNat(c: char): (d: nat)
    requires IsDigit(c)
    ensures d < 10
  {
    c as int - '0' as int
  }

  function NatToDigit(d: nat): (c: char)
    requires d < 10
    ensures IsDigit(c) && DigitToNat(c) == d
  {
    ('0' as int + d) as char
  }

  /** `int(name)` for a string of decimal digits (leading zeros allowed). */
  function DigitValue(s: string): nat
    requires AllDigits(s)
    decreases |s|
  {
    if s == [] then 0 else 10 * DigitValue(s[..|s| - 1]) + DigitToNat(s[|s| - 1])
  }

  /** `str(n)`: the decimal text of n. */
  function NatToString(n: nat): string
    decreases n
  {
    if n < 10 then [NatToDigit(n)] else NatToString(n / 10) + [NatToDigit(n % 10)]
  }

  /** The text is digits only, without a leading zero. */
  lemma {:induction false} NatToStringDigits(n: nat)
    ensures IsDigitName(NatToString(n))
    ensures NatToString(n)[0] == '0' ==> n == 0
  {
    if n >= 10 {
      NatToStringDigits(n / 10);
      var s := NatToString(n);
      assert s[..|s| - 1] == NatToString(n / 10);
      assert s[0] == NatToString(n / 10)[0];
    }
  }

  /** Reading back the text of a number gives the number. */
  lemma {:induction false} DigitValueOfNatToString(n: nat)
    ensures AllDigits(NatToString(n)) && DigitValue(NatToString(n)) == n
  {
    NatToStringDigits(n);
    if n >= 10 {
      var s := NatToString(n);
      assert s[..|s| - 1] == NatToString(n / 10);
      DigitValueOfNatToString(n / 10);
    }
  }

  /** Distinct indices have distinct texts. */
  lemma NatToStringInjective(a: nat, b: nat)
    ensures NatToString(a) == NatToString(b) ==> a == b
  {
    DigitValueOfNatToString(a);
    DigitValueOfNatToString(b);
  }

  /** A leading zero does not change `int(name)`: "01" and "1" both read as 1. */
  lemma {:induction false} DigitValueLeadingZero(s: string)
    requires AllDigits(s)
    ensures AllDigits(['0'] + s) && DigitValue(['0'] + s) == DigitValue(s)
  {
    var z := ['0'] + s;
    assert AllDigits(z) by {
      forall i | 0 <= i < |z| ensures IsDigit(z[i]) {
        if i > 0 { assert z[i] == s[i - 1]; }
      }
    }
    if s != [] {
      assert z[..|z| - 1] == ['0'] + s[..|s| - 1];
      DigitValueLeadingZero(s[..|s| - 1]);
    }
  }

  predicate HasSuffix(s: string, suffix: string) {
    |suffix| <= |s| && s[|s| - |suffix|..] == suffix
  }

  /** What `glob("*.webp")` matches. */
  predicate IsImage(name: string) {
    HasSuffix(name, ".webp")
  }

  /** What `glob("*.mp4")` matches. */
  predicate IsVideo(name: string) {
    HasSuffix(name, ".mp4")
  }

  /** The names in a folder that `glob("*" + suffix)` lists. */
  function Matching(names: set<string>, suffix: string): set<string> {
    set x | x in names && HasSuffix(x, suffix)
  }

  function Images(names: set<string>): set<string> {
    Matching(names, ".webp")
  }

  function Videos(names: set<string>): set<string> {
    Matching(names, ".mp4")
  }

  /** No name is matched by both globs. */
  lemma ImageNotVideo(name: string)
    ensures !(IsImage(name) && IsVideo(name))
  {
    if |name| >= 5 {
      assert IsImage(name) ==> name[|name| - 1] == ".webp"[4];
      assert IsVideo(name) ==> name[|name| - 1] == ".mp4"[3];
    }
  }

  const TargetPrefix := "figure_"
  const ImageInfix := "_img_"

  /** `f"figure_{folder_number}_img_{idx}.webp"`. */
  function ImageTarget(folder: string, idx: nat): string {
    TargetPrefix + folder + ImageInfix + NatToString(idx) + ".webp"
  }

  /** `f"figure_{folder_number}_video.mp4"`. */
  function VideoTarget(folder: string): string {
    TargetPrefix + folder + "_video.mp4"
  }

  /** Image targets are matched by the `.webp` glob and only by it. */
  lemma ImageTargetIsImage(folder: string, idx: nat)
    ensures IsImage(ImageTarget(folder, idx)) && !IsVideo(ImageTarget(folder, idx))
  {
    var r := ImageTarget(folder, idx);
    assert r[|r| - 5..] == ".webp";
    ImageNotVideo(r);
  }

  /** The video target is matched by the `.mp4` glob and only by it. */
  lemma VideoTargetIsVideo(folder: string)
    ensures IsVideo(VideoTarget(folder)) && !IsImage(VideoTarget(folder))
  {
    var r := VideoTarget(folder);
    assert r[|r| - 4..] == ".mp4";
    ImageNotVideo(r);
  }

  /** Within one folder, two image indices never share a target name. */
  lemma ImageTargetInjective(folder: string, i: nat, j: nat)
    ensures ImageTarget(folder, i) == ImageTarget(folder, j) ==> i == j
  {
    if ImageTarget(folder, i) == ImageTarget(folder, j) {
      var p := TargetPrefix + folder + ImageInfix;
      var a, b := NatToString(i), NatToString(j);
      assert ImageTarget(folder, i) == p + a + ".webp";
      assert ImageTarget(folder, j) == p + b + ".webp";
      assert |a| == |b|;
      assert a == (p + a + ".webp")[|p|..|p| + |a|];
      assert b == (p + b + ".webp")[|p|..|p| + |b|];
      NatToStringInjective(i, j);
    }
  }

  /** Python's `<=` on strings: code point by code point, a proper prefix first. */
  predicate LexLe(a: string, b: string)
    decreases |a|
  {
    a == [] || (b != [] && if a[0] == b[0] then LexLe(a[1..], b[1..]) else a[0] < b[0])
  }

  lemma {:induction false} LexLeTotal(a: string, b: string)
    ensures LexLe(a, b) || LexLe(b, a)
    decreases |a|
  {
    if a != [] && b != [] && a[0] == b[0] {
      LexLeTotal(a[1..], b[1..]);
    }
  }

  lemma {:induction false} LexLeTransitive(a: string, b: string, c: string)
    requires LexLe(a, b) && LexLe(b, c)
    ensures LexLe(a, c)
    decreases |a|
  {
    if a != [] && a[0] == b[0] && b[0] == c[0] {
      LexLeTransitive(a[1..], b[1..], c[1..]);
    }
  }

  lemma {:induction false} LexLeAntisymmetric(a: string, b: string)
    requires LexLe(a, b) && LexLe(b, a)
    ensures a == b
    decreases |a|
  {
    if a != [] {
      LexLeAntisymmetric(a[1..], b[1..]);
      assert a == [a[0]] + a[1..] && b == [b[0]] + b[1..];
    }
  }
}
