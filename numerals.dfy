/** Decimal text of integer ids, as Python's `str(int)` writes it and as the
    interaction handlers read it back with `int(...)`, and the
    `custom_id.split("::", maxsplit=1)[1]` step that separates an id from its
    button prefix. */
module Numerals {
  import opened Wrappers

  predicate IsDigit(c: char) {
    '0' <= c <= '9'
  }

  predicate AllDigits(s: string) {
    forall i :: 0 <= i < |s| ==> IsDigit(s[i])
  }

  function DigitChar(d: int): (c: char)
    requires 0 <= d < 10
    ensures IsDigit(c)
  {
    (48 + d) as char
  }

  function DigitValue(c: char): (d: int)
    requires IsDigit(c)
    ensures 0 <= d < 10
  {
    c as int - 48
  }

  /** `str(n)` for n >= 0: no sign, no leading zero. */
  function NatText(n: nat): (s: string)
    ensures |s| >= 1 && AllDigits(s)
    ensures |s| > 1 ==> s[0] != '0'
  {
    if n < 10 then [DigitChar(n)] else NatText(n / 10) + [DigitChar(n % 10)]
  }

  /** `str(n)` for any integer. */
  function IntText(n: int): string {
    if n < 0 then "-" + NatText(-n) else NatText(n)
  }

  /** `str(v)` of an id that may still be `None`. */
  function IdText(v: Option<int>): string {
    match v
    case Some(n) => IntText(n)
    case None => "None"
  }

  /** The value of a run of decimal digits (0 for the empty text). */
  function DigitsValue(s: string): nat
    requires AllDigits(s)
  {
    if s == [] then 0 else DigitsValue(s[..|s| - 1]) * 10 + DigitValue(s[|s| - 1])
  }

  /** `int(s)` restricted to an optional minus sign followed by digits; every
      other text (empty, a sign alone, "None", anything with a non-digit)
      raises, written `None` here. */
  function ParseInt(s: string): (r: Option<int>)
    ensures r.Some? ==> |s| >= 1 && (s[0] == '-' ==> AllDigits(s[1..]))
    ensures r.Some? && s[0] != '-' ==> AllDigits(s) && r.value >= 0
    ensures r.Some? && r.value < 0 ==> s[0] == '-'
  {
    if |s| >= 2 && s[0] == '-' && AllDigits(s[1..]) then Some(-(DigitsValue(s[1..]) as int))
    else if |s| >= 1 && AllDigits(s) then Some(DigitsValue(s))
    else None
  }

  /** Whether "::" starts at position i of s. */
  predicate SeparatorAt(s: string, i: int) {
    0 <= i < |s| - 1 && s[i] == ':' && s[i + 1] == ':'
  }

  /** `s.split("::", maxsplit=1)[1]`: the text after the first "::";
      `None` when there is none (the index raises). The result is the end of
      `s`, right after a "::". */
  function AfterSeparator(s: string): (r: Option<string>)
    ensures r.Some? ==> |r.value| + 2 <= |s| && SeparatorAt(s, |s| - |r.value| - 2) &&
                        s[|s| - |r.value|..] == r.value
  {
    if |s| < 2 then None
    else if s[0] == ':' && s[1] == ':' then Some(s[2..])
    else AfterSeparator(s[1..])
  }

  /** The split finds a "::" exactly when `s` has one, and it is the first. */
  lemma {:induction false} AfterSeparatorFirst(s: string)
    ensures AfterSeparator(s).None? <==> forall i :: !SeparatorAt(s, i)
    ensures AfterSeparator(s).Some? ==>
              forall i :: 0 <= i < |s| - |AfterSeparator(s).value| - 2 ==> !SeparatorAt(s, i)
  {
    if |s| >= 2 && !(s[0] == ':' && s[1] == ':') {
      AfterSeparatorFirst(s[1..]);
      forall i | AfterSeparator(s).None? || i < |s| - |AfterSeparator(s).value| - 2
        ensures !SeparatorAt(s, i)
      {
        if 1 <= i < |s| - 1 {
          assert s[1..][i - 1] == s[i] && s[1..][i] == s[i + 1];
          assert !SeparatorAt(s[1..], i - 1);
        }
      }
      if forall i :: !SeparatorAt(s, i) {
        forall j ensures !SeparatorAt(s[1..], j) {
          assert !SeparatorAt(s, j + 1);
        }
      }
    }
  }

  lemma {:induction false} NatTextValue(n: nat)
    ensures DigitsValue(NatText(n)) == n
  {
    if n >= 10 {
      var s := NatText(n);
      NatTextValue(n / 10);
      assert s[..|s| - 1] == NatText(n / 10);
    }
  }

  /** Reading back what `str` wrote gives the same integer. */
  lemma IntTextRoundTrip(n: int)
    ensures ParseInt(IntText(n)) == Some(n)
  {
    if n < 0 {
      NatTextValue(-n);
      assert IntText(n)[1..] == NatText(-n);
    } else {
      NatTextValue(n);
    }
  }

  /** "None" is not an integer: a button whose id was never assigned cannot be
      resolved. */
  lemma NoneIsNotAnInt()
    ensures ParseInt(IdText(None)) == None
  {
    assert !IsDigit("None"[0]);
  }

  /** A prefix without ':' followed by "::" is split right after the "::". */
  lemma {:induction false} AfterSeparatorOfPrefix(prefix: string, rest: string)
    requires forall i :: 0 <= i < |prefix| ==> prefix[i] != ':'
    ensures AfterSeparator(prefix + "::" + rest) == Some(rest)
  {
    var s := prefix + "::" + rest;
    if prefix == [] {
      assert s[0] == ':' && s[1] == ':' && s[2..] == rest;
    } else {
      assert s[0] == prefix[0] && s[0] != ':';
      assert s[1..] == prefix[1..] + "::" + rest;
      AfterSeparatorOfPrefix(prefix[1..], rest);
    }
  }

  /** A button's custom id, `prefix + "::" + str(id)`, for a prefix free of
      ':': the text after the first "::" is `str(id)`, which parses back to
      the id, and the "None" of an instance never stored does not parse. */
  function PrefixedId(prefix: string, id: Option<int>): (customId: string)
    requires forall i :: 0 <= i < |prefix| ==> prefix[i] != ':'
    ensures AfterSeparator(customId) == Some(IdText(id))
    ensures ParseInt(IdText(id)) == id
  {
    AfterSeparatorOfPrefix(prefix, IdText(id));
    if id.Some? then
      IntTextRoundTrip(id.value);
      prefix + "::" + IdText(id)
    else
      NoneIsNotAnInt();
      prefix + "::" + IdText(id)
  }

  /** User input that must be a positive integer: `int(text)` (given here as
      its result) succeeded and is > 0. */
  function PositiveAmount(parsed: Option<int>): (r: Option<int>)
    ensures r.Some? <==> parsed.Some? && parsed.value > 0
    ensures r.Some? ==> r == parsed
  {
    if parsed.Some? && parsed.value > 0 then parsed else None
  }
}
