/** The few string operations of Python's builtins that the core relies on:
    `str(n)` for a chunk number, `int(s)` for the chunk sort key,
    `s.split(".")[0]`, `PurePath.suffix` and `sep.join(parts)`. */
module Text {
  import opened Common

  predicate IsDigit(c: char)
  {
    '0' <= c <= '9'
  }

  /** A non-empty run of ASCII decimal digits. */
  predicate IsDigits(s: string)
  {
    |s| > 0 && forall i :: 0 <= i < |s| ==> IsDigit(s[i])
  }

  function DigitChar(d: nat): (c: char)
    requires d < 10
    ensures IsDigit(c) && c as int - '0' as int == d
  {
    (d + '0' as int) as char
  }

  /** `str(n)` for a non-negative int: its decimal digits, most significant first. */
  function NatToString(n: nat): (s: string)
    ensures IsDigits(s)
    decreases n
  {
    if n < 10 then [DigitChar(n)] else NatToString(n / 10) + [DigitChar(n % 10)]
  }

  function DigitValue(c: char): nat
    requires IsDigit(c)
  {
    c as int - '0' as int
  }

  /** The number a run of decimal digits denotes. */
  function DigitsValue(s: string): nat
    requires forall i :: 0 <= i < |s| ==> IsDigit(s[i])
  {
    if s == [] then 0
    else DigitsValue(s[..|s| - 1]) * 10 + DigitValue(s[|s| - 1])
  }

  /** `int(s)` in base 10 for an optional sign followed by ASCII digits; None
      where Python raises ValueError. */
  function ParseInt(s: string): Option<int>
  {
    if |s| > 1 && (s[0] == '+' || s[0] == '-') && IsDigits(s[1..]) then
      Some(if s[0] == '-' then 0 - DigitsValue(s[1..]) as int else DigitsValue(s[1..]))
    else if IsDigits(s) then Some(DigitsValue(s))
    else None
  }

  /** int(str(n)) == n. */
  lemma {:induction false} ParseIntNatToString(n: nat)
    ensures ParseInt(NatToString(n)) == Some(n)
  {
    DigitsValueNatToString(n);
  }

  lemma {:induction false} DigitsValueNatToString(n: nat)
    ensures DigitsValue(NatToString(n)) == n
    decreases n
  {
    var s := NatToString(n);
    if n < 10 {
      assert s[..|s| - 1] == [];
    } else {
      assert s[..|s| - 1] == NatToString(n / 10);
      DigitsValueNatToString(n / 10);
    }
  }

  /** Different numbers give different strings, hence different chunk names. */
  lemma NatToStringInjective(m: nat, n: nat)
    requires NatToString(m) == NatToString(n)
    ensures m == n
  {
    ParseIntNatToString(m);
    ParseIntNatToString(n);
  }

  /** `s.split(".")[0]`: the text before the first dot, or all of `s`. */
  function BeforeDot(s: string): (r: string)
    ensures |r| <= |s| && r == s[..|r|]
    ensures forall i :: 0 <= i < |r| ==> r[i] != '.'
    ensures |r| < |s| ==> s[|r|] == '.'
  {
    if s == [] || s[0] == '.' then [] else [s[0]] + BeforeDot(s[1..])
  }

  /** `s.rfind(".")`: the index of the last dot, or -1. */
  function LastDot(s: string): (i: int)
    ensures -1 <= i < |s|
    ensures 0 <= i ==> s[i] == '.'
    ensures forall j :: i < j < |s| ==> s[j] != '.'
  {
    if s == [] then -1
    else if s[|s| - 1] == '.' then |s| - 1
    else LastDot(s[..|s| - 1])
  }

  /** `PurePath(name).suffix`: from the last dot to the end, provided that dot
      is neither the first nor the last character; otherwise empty. */
  function Suffix(name: string): string
  {
    var i := LastDot(name);
    if 0 < i < |name| - 1 then name[i..] else ""
  }

  /** A non-empty stem without dots followed by an extension gives that extension. */
  lemma SuffixOfDotless(stem: string, ext: string)
    requires |stem| > 0 && forall i :: 0 <= i < |stem| ==> stem[i] != '.'
    requires |ext| > 0 && forall i :: 0 <= i < |ext| ==> ext[i] != '.'
    ensures Suffix(stem + "." + ext) == "." + ext
    ensures BeforeDot(stem + "." + ext) == stem
  {
    var rest := "." + ext;
    var name := stem + rest;
    assert stem + "." + ext == name;
    forall j | |stem| < j < |name| ensures name[j] != '.' {
      assert name[j] == ext[j - |stem| - 1];
    }
    LastDotUnique(name, |stem|);
    assert name[|stem|..] == rest;
    BeforeDotStops(stem, rest);
  }

  /** A dot with no dot after it is the last dot. */
  lemma LastDotUnique(s: string, k: nat)
    requires k < |s| && s[k] == '.'
    requires forall j :: k < j < |s| ==> s[j] != '.'
    ensures LastDot(s) == k
  {
  }

  lemma {:induction false} BeforeDotStops(stem: string, rest: string)
    requires forall i :: 0 <= i < |stem| ==> stem[i] != '.'
    requires |rest| > 0 && rest[0] == '.'
    ensures BeforeDot(stem + rest) == stem
  {
    if stem == [] {
      assert stem + rest == rest;
    } else {
      assert (stem + rest)[1..] == stem[1..] + rest;
      BeforeDotStops(stem[1..], rest);
    }
  }

  /** `sep.join(parts)`. */
  function Join(sep: string, parts: seq<string>): string
  {
    if parts == [] then ""
    else if |parts| == 1 then parts[0]
    else Join(sep, parts[..|parts| - 1]) + sep + parts[|parts| - 1]
  }
}
