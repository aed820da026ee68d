/** The two pieces of Rust's standard library that the device reader relies
    on and whose behaviour decides which configurations are accepted:
    `str::trim` and `u64::from_str`. The float parse is not modelled here;
    it stays an oracle of the caller. */
module StdText {
  import opened Types

  /** The characters with the Unicode White_Space property, which
      `str::trim` removes at both ends. */
  const WhiteSpace: set<char> :=
    {'\t', '\n', '\U{0B}', '\U{0C}', '\r', ' ', '\U{85}', '\U{A0}', '\U{1680}',
     '\U{2000}', '\U{2001}', '\U{2002}', '\U{2003}', '\U{2004}', '\U{2005}',
     '\U{2006}', '\U{2007}', '\U{2008}', '\U{2009}', '\U{200A}',
     '\U{2028}', '\U{2029}', '\U{202F}', '\U{205F}', '\U{3000}'}

  predicate IsWhitespace(c: char)
  {
    c in WhiteSpace
  }

  /** The number of white-space characters at the front of `s`. */
  function Leading(s: string): (n: nat)
    ensures n <= |s|
    decreases |s|
  {
    if |s| > 0 && IsWhitespace(s[0]) then 1 + Leading(s[1..]) else 0
  }

  /** `Leading` counts exactly the white space at the front: every character
      before the count is white space, and the one at the count is not. */
  lemma {:induction false} LeadingSpec(s: string)
    ensures forall k :: 0 <= k < Leading(s) ==> IsWhitespace(s[k])
    ensures Leading(s) < |s| ==> !IsWhitespace(s[Leading(s)])
    decreases |s|
  {
    if |s| > 0 && IsWhitespace(s[0]) {
      LeadingSpec(s[1..]);
      assert forall k :: 1 <= k < |s| ==> s[k] == s[1..][k - 1];
    }
  }

  /** The number of white-space characters at the back of `s`. */
  function Trailing(s: string): (n: nat)
    ensures n <= |s|
    decreases |s|
  {
    if |s| > 0 && IsWhitespace(s[|s| - 1]) then 1 + Trailing(s[..|s| - 1]) else 0
  }

  /** `Trailing` counts exactly the white space at the back. */
  lemma {:induction false} TrailingSpec(s: string)
    ensures forall k :: |s| - Trailing(s) <= k < |s| ==> IsWhitespace(s[k])
    ensures Trailing(s) < |s| ==> !IsWhitespace(s[|s| - 1 - Trailing(s)])
    decreases |s|
  {
    if |s| > 0 && IsWhitespace(s[|s| - 1]) {
      TrailingSpec(s[..|s| - 1]);
      assert forall k :: 0 <= k < |s| - 1 ==> s[k] == s[..|s| - 1][k];
    }
  }

  /** `str::trim`: what is left of `s` once the white space at its front
      and then the white space at the back of the rest are removed. */
  function Trim(s: string): (t: string)
    ensures |t| <= |s|
  {
    var rest := s[Leading(s)..];
    rest[..|rest| - Trailing(rest)]
  }

  /** What `trim` returns is the infix of `s` after its leading white space,
      with only white space after it in `s`. */
  lemma TrimInfix(s: string)
    ensures var t := Trim(s);
            && Leading(s) + |t| <= |s| && t == s[Leading(s)..Leading(s) + |t|]
            && (forall k :: Leading(s) + |t| <= k < |s| ==> IsWhitespace(s[k]))
  {
    var i := Leading(s);
    var rest := s[i..];
    var t := rest[..|rest| - Trailing(rest)];
    assert Trim(s) == t;
    assert t == s[i..i + |t|];
    forall k | i + |t| <= k < |s| ensures IsWhitespace(s[k]) {
      TrailingSpec(rest);
      assert s[k] == rest[k - i];
    }
  }

  /** What `trim` returns has no white space at either of its ends. */
  lemma TrimEnds(s: string)
    ensures var t := Trim(s);
            t != [] ==> !IsWhitespace(t[0]) && !IsWhitespace(t[|t| - 1])
  {
    var i := Leading(s);
    var rest := s[i..];
    var j := Trailing(rest);
    var t := Trim(s);
    if t != [] {
      LeadingSpec(s);
      TrailingSpec(rest);
      assert t[0] == s[i];
      assert t[|t| - 1] == rest[|rest| - 1 - j];
    }
  }

  predicate AllWhitespace(s: string)
  {
    forall i :: 0 <= i < |s| ==> IsWhitespace(s[i])
  }

  /** Padding a text that has no white space at its ends with white space on
      either side does not change what `trim` returns. */
  lemma TrimPadded(pre: string, t: string, post: string)
    requires AllWhitespace(pre) && AllWhitespace(post)
    requires t != [] ==> !IsWhitespace(t[0]) && !IsWhitespace(t[|t| - 1])
    ensures Trim(pre + t + post) == t
  {
    var s := pre + t + post;
    LeadingSpec(s);
    var i := Leading(s);
    if t == [] {
      assert AllWhitespace(s) by {
        forall k | 0 <= k < |s| ensures IsWhitespace(s[k]) {
          if k < |pre| { assert s[k] == pre[k]; } else { assert s[k] == post[k - |pre|]; }
        }
      }
      assert i == |s|;
      assert s[i..] == [];
    } else {
      assert s[|pre|] == t[0];
      assert forall k :: 0 <= k < |pre| ==> s[k] == pre[k];
      assert i == |pre|;
      var rest := s[i..];
      assert rest == t + post;
      TrailingSpec(rest);
      var j := Trailing(rest);
      assert rest[|rest| - 1 - |post|] == t[|t| - 1];
      assert forall k :: |rest| - |post| <= k < |rest| ==> rest[k] == post[k - (|rest| - |post|)];
      assert j == |post|;
      assert rest[..|rest| - j] == t;
    }
  }

  // ---------------------------------------------------------------------
  // u64::from_str

  const U64Max: nat := 0xFFFF_FFFF_FFFF_FFFF

  predicate IsDigit(c: char)
  {
    '0' <= c <= '9'
  }

  function DigitValue(c: char): (d: nat)
    requires IsDigit(c)
    ensures d < 10
  {
    c as int - '0' as int
  }

  predicate AllDigits(s: string)
  {
    forall i :: 0 <= i < |s| ==> IsDigit(s[i])
  }

  /** The positional value of a string of decimal digits, read from the
      right (the reference against which the parser is proved). */
  function DecimalValue(s: string): nat
    requires AllDigits(s)
    decreases |s|
  {
    if s == [] then 0 else DecimalValue(s[..|s| - 1]) * 10 + DigitValue(s[|s| - 1])
  }

  /** The digits after an optional leading '+'. An unsigned parse keeps a
      leading '-', which then fails as an invalid digit. */
  function Unsigned(s: string): string
  {
    if |s| > 0 && s[0] == '+' then s[1..] else s
  }

  /** The library's digit loop: left to right, an invalid digit or an
      accumulator above `u64::MAX` stops it with that error. */
  function Accumulate(acc: nat, digits: string): (r: Result<nat>)
    requires acc <= U64Max
    ensures r.Ok? ==> r.value <= U64Max
    decreases |digits|
  {
    if digits == [] then Ok(acc)
    else if !IsDigit(digits[0]) then Err(InvalidInt(InvalidDigit))
    else
      var next := acc * 10 + DigitValue(digits[0]);
      if next > U64Max then Err(InvalidInt(PosOverflow)) else Accumulate(next, digits[1..])
  }

  /** `u64::from_str`: the empty string, a lone sign, or anything other than
      an optional '+' and decimal digits is refused, and so is a value above
      `u64::MAX`. There is no range check beyond that: "0" is accepted. */
  function ParseU64(s: string): (r: Result<nat>)
    ensures r.Ok? ==> r.value <= U64Max
  {
    if s == [] then Err(InvalidInt(Empty))
    else if s == "+" || s == "-" then Err(InvalidInt(InvalidDigit))
    else Accumulate(0, Unsigned(s))
  }

  /** The digit loop without its checks, left to right. */
  function Horner(acc: nat, digits: string): nat
    requires AllDigits(digits)
    decreases |digits|
  {
    if digits == [] then acc else Horner(acc * 10 + DigitValue(digits[0]), digits[1..])
  }

  lemma {:induction false} HornerSnoc(acc: nat, ds: string, c: char)
    requires AllDigits(ds) && IsDigit(c)
    ensures AllDigits(ds + [c])
    ensures Horner(acc, ds + [c]) == Horner(acc, ds) * 10 + DigitValue(c)
    decreases |ds|
  {
    if ds != [] {
      assert (ds + [c])[1..] == ds[1..] + [c];
      HornerSnoc(acc * 10 + DigitValue(ds[0]), ds[1..], c);
    }
  }

  lemma {:induction false} HornerIsDecimal(ds: string)
    requires AllDigits(ds)
    ensures Horner(0, ds) == DecimalValue(ds)
    decreases |ds|
  {
    if ds != [] {
      var init := ds[..|ds| - 1];
      HornerIsDecimal(init);
      HornerSnoc(0, init, ds[|ds| - 1]);
      assert init + [ds[|ds| - 1]] == ds;
    }
  }

  lemma {:induction false} HornerGrows(acc: nat, ds: string)
    requires AllDigits(ds)
    ensures Horner(acc, ds) >= acc
    decreases |ds|
  {
    if ds != [] {
      HornerGrows(acc * 10 + DigitValue(ds[0]), ds[1..]);
    }
  }

  /** The checked loop succeeds exactly when every character is a digit and
      the unchecked value fits in a `u64`, and then yields that value. */
  lemma {:induction false} AccumulateSpec(acc: nat, ds: string)
    requires acc <= U64Max
    ensures Accumulate(acc, ds).Ok? <==> AllDigits(ds) && Horner(acc, ds) <= U64Max
    ensures Accumulate(acc, ds).Ok? ==> Accumulate(acc, ds).value == Horner(acc, ds)
    decreases |ds|
  {
    if ds != [] {
      if IsDigit(ds[0]) {
        var next := acc * 10 + DigitValue(ds[0]);
        if next > U64Max {
          if AllDigits(ds) { HornerGrows(next, ds[1..]); }
        } else {
          AccumulateSpec(next, ds[1..]);
          assert AllDigits(ds) <==> AllDigits(ds[1..]) by {
            if AllDigits(ds[1..]) {
              forall i | 0 <= i < |ds| ensures IsDigit(ds[i]) {
                if i > 0 { assert ds[i] == ds[1..][i - 1]; }
              }
            }
          }
        }
      }
    }
  }

  /** What `u64::from_str` accepts: an optional '+' followed by at least one
      decimal digit, whose value is at most `u64::MAX`; the result is that
      value. */
  lemma ParseU64Spec(s: string)
    ensures ParseU64(s).Ok? <==>
              var ds := Unsigned(s); ds != [] && AllDigits(ds) && DecimalValue(ds) <= U64Max
    ensures ParseU64(s).Ok? ==> ParseU64(s).value == DecimalValue(Unsigned(s))
    ensures s == [] ==> ParseU64(s) == Err(InvalidInt(Empty))
  {
    var ds := Unsigned(s);
    if s != [] && s != "+" && s != "-" {
      AccumulateSpec(0, ds);
      if AllDigits(ds) { HornerIsDecimal(ds); }
    } else if s == "-" {
      assert !IsDigit(ds[0]);
    }
  }

  /** The decimal text of `n`, most significant digit first, no sign, no
      leading zeros. */
  function NatToString(n: nat): (s: string)
    ensures s != [] && AllDigits(s)
    ensures DecimalValue(s) == n
    decreases n
  {
    var d := ['0' + (n % 10) as char];
    var s := if n < 10 then d else NatToString(n / 10) + d;
    assert s[..|s| - 1] == (if n < 10 then [] else NatToString(n / 10));
    s
  }

  /** Printing a `u64` in decimal and parsing it back gives the same number. */
  lemma ParseU64RoundTrip(n: nat)
    requires n <= U64Max
    ensures ParseU64(NatToString(n)) == Ok(n)
  {
    var s := NatToString(n);
    assert Unsigned(s) == s;
    ParseU64Spec(s);
  }
}
