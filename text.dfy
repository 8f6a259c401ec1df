/**
  The few Python string built-ins the record processing relies on, stated on
  `seq<char>`: an optional cell (`None` or text), `str.strip()` with no
  argument, `str.isdigit()` restricted to ASCII digits, and `int()` applied to
  such a digit string.
 */
module Text {

  /** A table cell as the extractor returns it: `None` or a text value. */
  datatype Option<T> = None | Some(value: T)

  /** Code-point ranges, bounds included, of the characters Python's
      `str.isspace()` accepts; `str.strip()` without an argument removes
      exactly these. */
  const SpaceRanges: seq<(int, int)> := [
    (0x09, 0x0D), (0x1C, 0x20), (0x85, 0x85), (0xA0, 0xA0), (0x1680, 0x1680),
    (0x2000, 0x200A), (0x2028, 0x2029), (0x202F, 0x202F), (0x205F, 0x205F),
    (0x3000, 0x3000)]

  predicate InRanges(n: int, ranges: seq<(int, int)>) {
    ranges != [] && ((ranges[0].0 <= n <= ranges[0].1) || InRanges(n, ranges[1..]))
  }

  predicate IsSpace(c: char) {
    InRanges(c as int, SpaceRanges)
  }

  /** A code point outside every range is not in them. */
  lemma {:induction false} OutsideRanges(n: int, ranges: seq<(int, int)>)
    requires forall k :: 0 <= k < |ranges| ==> n < ranges[k].0 || ranges[k].1 < n
    ensures !InRanges(n, ranges)
  {
    if ranges != [] {
      assert forall k :: 0 <= k < |ranges[1..]| ==> ranges[1..][k] == ranges[k + 1];
      OutsideRanges(n, ranges[1..]);
    }
  }

  /** The visible ASCII characters, `!` to `~`, are not spaces. */
  lemma VisibleAsciiNotSpace(c: char)
    requires '!' <= c <= '~'
    ensures !IsSpace(c)
  {
    OutsideRanges(c as int, SpaceRanges);
  }

  predicate AllSpace(s: string) {
    forall i :: 0 <= i < |s| ==> IsSpace(s[i])
  }

  /** A string with nothing for `strip` to remove: empty, or neither end is a space. */
  predicate IsStripped(s: string) {
    s == [] || (!IsSpace(s[0]) && !IsSpace(s[|s| - 1]))
  }

  /** Python's `s.lstrip()`: `s` without its leading spaces. */
  function StripStart(s: string): (r: string)
    ensures r == [] || !IsSpace(r[0])
  {
    if s != [] && IsSpace(s[0]) then StripStart(s[1..]) else s
  }

  /** Python's `s.rstrip()`: `s` without its trailing spaces. A result that
      is not empty starts where `s` starts. */
  function StripEnd(s: string): (r: string)
    ensures |r| <= |s|
    ensures r == [] || (!IsSpace(r[|r| - 1]) && r[0] == s[0])
  {
    if s != [] && IsSpace(s[|s| - 1]) then StripEnd(s[..|s| - 1]) else s
  }

  /** Python's `s.strip()`: `s` without its leading and trailing spaces. */
  function Strip(s: string): (r: string)
    ensures IsStripped(r)
  {
    StripEnd(StripStart(s))
  }

  /** `lstrip` removes exactly a leading run of spaces. */
  lemma {:induction false} StripStartPadded(lead: string, rest: string)
    requires AllSpace(lead)
    ensures rest == [] || !IsSpace(rest[0]) ==> StripStart(lead + rest) == rest
    ensures AllSpace(rest) ==> StripStart(lead + rest) == []
  {
    if lead == [] {
      assert lead + rest == rest;
      StripStartAllSpace(rest);
    } else {
      assert (lead + rest)[1..] == lead[1..] + rest;
      StripStartPadded(lead[1..], rest);
    }
  }

  /** `lstrip` of a string of spaces leaves nothing. */
  lemma {:induction false} StripStartAllSpace(s: string)
    ensures AllSpace(s) ==> StripStart(s) == []
  {
    if s != [] {
      StripStartAllSpace(s[1..]);
    }
  }

  /** `rstrip` removes exactly a trailing run of spaces from a string that
      does not start with a space. */
  lemma {:induction false} StripEndPadded(rest: string, trail: string)
    requires AllSpace(trail) && (rest == [] || !IsSpace(rest[|rest| - 1]))
    ensures StripEnd(rest + trail) == rest
  {
    if trail == [] {
      assert rest + trail == rest;
    } else {
      var s := rest + trail;
      assert s[..|s| - 1] == rest + trail[..|trail| - 1];
      StripEndPadded(rest, trail[..|trail| - 1]);
    }
  }

  /** `rstrip` of a string that starts with a non-space keeps something. */
  lemma {:induction false} StripEndKeepsFirst(s: string)
    requires s != [] && !IsSpace(s[0])
    ensures StripEnd(s) != []
  {
    if |s| > 1 && IsSpace(s[|s| - 1]) {
      StripEndKeepsFirst(s[..|s| - 1]);
    }
  }

  /** Stripping leaves nothing exactly when `s` is all spaces. */
  lemma {:induction false} StripEmpty(s: string)
    ensures Strip(s) == [] <==> AllSpace(s)
  {
    if s == [] {
    } else if IsSpace(s[0]) {
      StripEmpty(s[1..]);
      assert AllSpace(s) <==> AllSpace(s[1..]);
    } else {
      StripEndKeepsFirst(s);
    }
  }

  /** `Strip` is determined by its contract: whatever the spaces around a
      stripped core, stripping gives back exactly that core. */
  lemma StripPadded(lead: string, core: string, trail: string)
    requires AllSpace(lead) && AllSpace(trail) && IsStripped(core)
    ensures Strip(lead + core + trail) == core
  {
    assert lead + core + trail == lead + (core + trail);
    if core == [] {
      assert core + trail == trail;
      StripStartPadded(lead, trail);
    } else {
      StripStartPadded(lead, core + trail);
      StripEndPadded(core, trail);
    }
  }

  /** Stripping twice is stripping once. */
  lemma StripIdempotent(s: string)
    ensures Strip(Strip(s)) == Strip(s)
  {
    StripPadded([], Strip(s), []);
    assert [] + Strip(s) + [] == Strip(s);
  }

  predicate IsDigitChar(c: char) {
    '0' <= c <= '9'
  }

  predicate AllDigits(s: string) {
    forall i :: 0 <= i < |s| ==> IsDigitChar(s[i])
  }

  /** Python's `s.isdigit()`, restricted to the ASCII digits: non-empty and
      made of digits only. */
  predicate IsDigits(s: string) {
    |s| > 0 && AllDigits(s)
  }

  function Pow10(k: nat): (p: nat)
    ensures p >= 1
  {
    if k == 0 then 1 else 10 * Pow10(k - 1)
  }

  /** `int(s)` for a string of decimal digits (leading zeros allowed). */
  function DecimalValue(s: string): (n: nat)
    requires AllDigits(s)
    ensures n < Pow10(|s|)
  {
    if s == [] then 0
    else 10 * DecimalValue(s[..|s| - 1]) + (s[|s| - 1] as int - '0' as int)
  }

  /** A digit string denotes zero exactly when every digit is `0`. */
  lemma {:induction false} DecimalValueZero(s: string)
    requires AllDigits(s)
    ensures DecimalValue(s) == 0 <==> forall i :: 0 <= i < |s| ==> s[i] == '0'
  {
    if s != [] {
      var init := s[..|s| - 1];
      DecimalValueZero(init);
      if DecimalValue(s) == 0 {
        forall i | 0 <= i < |s| ensures s[i] == '0' {
          if i < |init| { assert s[i] == init[i]; }
        }
      }
      if forall i :: 0 <= i < |s| ==> s[i] == '0' {
        assert forall i :: 0 <= i < |init| ==> init[i] == s[i];
      }
    }
  }

  /** A digit string denotes one exactly when it is `1` after any number of
      leading zeros (`"1"`, `"01"`, `"001"`, ...). */
  lemma DecimalValueOne(s: string)
    requires AllDigits(s)
    ensures DecimalValue(s) == 1 <==>
      (|s| > 0 && s[|s| - 1] == '1' && forall i :: 0 <= i < |s| - 1 ==> s[i] == '0')
  {
    if s != [] {
      var init := s[..|s| - 1];
      DecimalValueZero(init);
      assert forall i :: 0 <= i < |init| ==> init[i] == s[i];
    }
  }
}
