/** The pieces of the C and C++ standard libraries that the tile-name parser relies on:
    `std::string::find` for a single character, and `atol` (ISO/IEC 9899:2011, section
    7.22.1.2, which behaves like `strtol` with base 10 from section 7.22.1.4). */
module CStdlib {
  import opened Wrappers

  /** `s.find(c, from)`: the first index at or after `from` holding `c`, or None for `npos`.
      What makes it the first such index is stated by FindSpec. */
  function Find(s: string, c: char, from: nat): (r: Option<nat>)
    ensures r.Some? ==> from <= r.value < |s|
    decreases |s| - from
  {
    if from >= |s| then None
    else if s[from] == c then Some(from)
    else Find(s, c, from + 1)
  }

  /** Find returns the first occurrence at or after `from`, and None exactly when there is none. */
  lemma {:induction false} FindSpec(s: string, c: char, from: nat)
    ensures Find(s, c, from).Some? ==> s[Find(s, c, from).value] == c
    ensures Find(s, c, from).Some? ==> forall i :: from <= i < Find(s, c, from).value ==> s[i] != c
    ensures Find(s, c, from).None? ==> forall i :: from <= i < |s| ==> s[i] != c
    decreases |s| - from
  {
    if from < |s| && s[from] != c {
      FindSpec(s, c, from + 1);
    }
  }

  /** Conversely, Find is pinned down by where the first occurrence sits. */
  lemma {:induction false} FindIs(s: string, c: char, from: nat, k: nat)
    requires from <= k < |s| && s[k] == c
    requires forall i :: from <= i < k ==> s[i] != c
    ensures Find(s, c, from) == Some(k)
    decreases k - from
  {
    if from < k {
      FindIs(s, c, from + 1, k);
    }
  }

  lemma {:induction false} FindNone(s: string, c: char, from: nat)
    requires forall i :: from <= i < |s| ==> s[i] != c
    ensures Find(s, c, from).None?
    decreases |s| - from
  {
    if from < |s| {
      FindNone(s, c, from + 1);
    }
  }

  /** `isspace` in the "C" locale: space, tab, newline, vertical tab, form feed, carriage return. */
  predicate IsSpace(ch: char)
  {
    ch == ' ' || ch == '\t' || ch == '\n' || ch == '\U{B}' || ch == '\U{C}' || ch == '\r'
  }

  predicate IsDigit(ch: char)
  {
    '0' <= ch <= '9'
  }

  predicate IsSign(ch: char)
  {
    ch == '+' || ch == '-'
  }

  predicate AllDigits(s: string)
  {
    forall i :: 0 <= i < |s| ==> IsDigit(s[i])
  }

  predicate AllSpaces(s: string)
  {
    forall i :: 0 <= i < |s| ==> IsSpace(s[i])
  }

  function DigitValue(ch: char): (d: nat)
    requires IsDigit(ch)
    ensures d < 10
  {
    ch as int - '0' as int
  }

  function DigitChar(d: nat): (ch: char)
    requires d < 10
    ensures IsDigit(ch) && DigitValue(ch) == d
  {
    ('0' as int + d) as char
  }

  /** `s` with its leading white space removed. */
  function SkipSpace(s: string): string
  {
    if |s| > 0 && IsSpace(s[0]) then SkipSpace(s[1..]) else s
  }

  /** The digits at the front of `s` read most significant first onto `acc`, stopping at the
      first character that is not a digit. */
  function Accumulate(s: string, acc: nat): nat
  {
    if |s| > 0 && IsDigit(s[0]) then Accumulate(s[1..], 10 * acc + DigitValue(s[0])) else acc
  }

  /** The value of the digits at the front of `s`; 0 when `s` does not start with a digit. */
  function LeadingValue(s: string): nat
  {
    Accumulate(s, 0)
  }

  /** `atol`: skip white space, take an optional sign, then as many decimal digits as
      there are; trailing characters are ignored and no digits at all yields 0. */
  function Atol(s: string): int
  {
    SignedLeadingValue(SkipSpace(s))
  }

  /** What `atol` reads once the leading white space is gone. */
  function SignedLeadingValue(t: string): int
  {
    if |t| > 0 && t[0] == '-' then -(LeadingValue(t[1..]) as int)
    else if |t| > 0 && t[0] == '+' then LeadingValue(t[1..])
    else LeadingValue(t)
  }

  /** The value of a numeral, most significant digit first (leading zeros allowed). */
  function NumeralValue(ds: string): nat
    requires AllDigits(ds)
  {
    if |ds| == 0 then 0 else 10 * NumeralValue(ds[..|ds| - 1]) + DigitValue(ds[|ds| - 1])
  }

  /** The shortest decimal numeral of `n` (no leading zeros, "0" for zero). */
  function Decimal(n: nat): (s: string)
    ensures |s| > 0 && AllDigits(s)
    ensures n > 0 ==> s[0] != '0'
  {
    if n < 10 then [DigitChar(n)] else Decimal(n / 10) + [DigitChar(n % 10)]
  }

  lemma {:induction false} DecimalValue(n: nat)
    ensures NumeralValue(Decimal(n)) == n
  {
    if n >= 10 {
      var s := Decimal(n);
      assert s[..|s| - 1] == Decimal(n / 10);
      DecimalValue(n / 10);
    }
  }

  /** Reading a run of digits stops where the run ends. */
  lemma {:induction false} AccumulateRun(ds: string, rest: string, acc: nat)
    requires AllDigits(ds)
    requires rest == [] || !IsDigit(rest[0])
    ensures Accumulate(ds + rest, acc) == Accumulate(ds, acc)
  {
    if ds == [] {
      assert ds + rest == rest;
    } else {
      assert (ds + rest)[1..] == ds[1..] + rest;
      AccumulateRun(ds[1..], rest, 10 * acc + DigitValue(ds[0]));
    }
  }

  /** Reading one more digit multiplies what was read so far by ten and adds the digit. */
  lemma {:induction false} AccumulateSnoc(ds: string, d: char, acc: nat)
    requires AllDigits(ds) && IsDigit(d)
    ensures Accumulate(ds + [d], acc) == 10 * Accumulate(ds, acc) + DigitValue(d)
  {
    if ds == [] {
      assert ds + [d] == [d];
      assert [d][1..] == [];
    } else {
      assert (ds + [d])[1..] == ds[1..] + [d];
      AccumulateSnoc(ds[1..], d, 10 * acc + DigitValue(ds[0]));
    }
  }

  /** Reading a numeral from the front gives its value. */
  lemma {:induction false} LeadingValueOfNumeral(ds: string)
    requires AllDigits(ds)
    ensures LeadingValue(ds) == NumeralValue(ds)
  {
    if ds != [] {
      var init := ds[..|ds| - 1];
      assert ds == init + [ds[|ds| - 1]];
      LeadingValueOfNumeral(init);
      AccumulateSnoc(init, ds[|ds| - 1], 0);
    }
  }

  lemma {:induction false} SkipSpaceOf(ws: string, t: string)
    requires AllSpaces(ws)
    requires t == [] || !IsSpace(t[0])
    ensures SkipSpace(ws + t) == t
  {
    if ws == [] {
      assert ws + t == t;
    } else {
      assert (ws + t)[1..] == ws[1..] + t;
      SkipSpaceOf(ws[1..], t);
    }
  }

  /** Leading white space does not change what `atol` reads. */
  lemma {:induction false} AtolSkipsSpace(ws: string, t: string)
    requires AllSpaces(ws)
    requires t == [] || !IsSpace(t[0])
    ensures Atol(ws + t) == Atol(t)
  {
    SkipSpaceOf(ws, t);
    SkipSpaceOf([], t);
    assert [] + t == t;
  }

  lemma {:induction false} AtolUnsigned(ds: string, rest: string)
    requires AllDigits(ds)
    requires rest == [] || !IsDigit(rest[0])
    requires ds + rest == [] || (!IsSpace((ds + rest)[0]) && !IsSign((ds + rest)[0]))
    ensures Atol(ds + rest) == NumeralValue(ds)
  {
    SkipSpaceOf([], ds + rest);
    assert [] + (ds + rest) == ds + rest;
    AccumulateRun(ds, rest, 0);
    LeadingValueOfNumeral(ds);
  }

  lemma {:induction false} AtolSigned(sign: char, ds: string, rest: string)
    requires IsSign(sign)
    requires AllDigits(ds)
    requires rest == [] || !IsDigit(rest[0])
    ensures Atol([sign] + ds + rest) == if sign == '-' then -(NumeralValue(ds) as int) else NumeralValue(ds)
  {
    var t := [sign] + ds + rest;
    SkipSpaceOf([], t);
    assert [] + t == t;
    assert Atol(t) == SignedLeadingValue(t);
    assert t[0] == sign && t[1..] == ds + rest;
    AccumulateRun(ds, rest, 0);
    LeadingValueOfNumeral(ds);
  }

  /** The form `strtol` expects, section 7.22.1.4: white space `ws`, an optional sign,
      a run of digits `ds` (possibly empty) and an unrecognised final part `rest`.
      StrtolForm shows that every string decomposes this way, so this determines `Atol`
      on all inputs. */
  lemma {:induction false} AtolOfForm(ws: string, sign: string, ds: string, rest: string)
    requires AllSpaces(ws)
    requires sign == "" || sign == "+" || sign == "-"
    requires AllDigits(ds)
    requires rest == [] || !IsDigit(rest[0])
    requires sign + ds + rest == [] || !IsSpace((sign + ds + rest)[0])
    requires sign == "" && ds + rest != [] ==> !IsSign((ds + rest)[0])
    ensures Atol(ws + sign + ds + rest) == if sign == "-" then -(NumeralValue(ds) as int) else NumeralValue(ds)
  {
    var t := sign + ds + rest;
    assert ws + sign + ds + rest == ws + t;
    AtolSkipsSpace(ws, t);
    if sign == "" {
      assert t == ds + rest;
      AtolUnsigned(ds, rest);
    } else {
      assert t == [sign[0]] + ds + rest;
      AtolSigned(sign[0], ds, rest);
    }
  }

  /** `s` split into its leading white space and the rest. */
  lemma {:induction false} SplitSpaces(s: string) returns (ws: string, t: string)
    ensures AllSpaces(ws) && s == ws + t
    ensures t == [] || !IsSpace(t[0])
  {
    if |s| > 0 && IsSpace(s[0]) {
      var ws', t' := SplitSpaces(s[1..]);
      ws, t := [s[0]] + ws', t';
      assert s == [s[0]] + s[1..];
    } else {
      ws, t := [], s;
    }
  }

  /** `s` split into its leading digits and the rest. */
  lemma {:induction false} SplitDigits(s: string) returns (ds: string, rest: string)
    ensures AllDigits(ds) && s == ds + rest
    ensures rest == [] || !IsDigit(rest[0])
  {
    if |s| > 0 && IsDigit(s[0]) {
      var ds', rest' := SplitDigits(s[1..]);
      ds, rest := [s[0]] + ds', rest';
      assert s == [s[0]] + s[1..];
    } else {
      ds, rest := [], s;
    }
  }

  /** Every string has the form AtolOfForm expects, so that lemma gives `Atol` of any string. */
  lemma StrtolForm(s: string) returns (ws: string, sign: string, ds: string, rest: string)
    ensures s == ws + sign + ds + rest
    ensures AllSpaces(ws)
    ensures sign == "" || sign == "+" || sign == "-"
    ensures AllDigits(ds)
    ensures rest == [] || !IsDigit(rest[0])
    ensures sign + ds + rest == [] || !IsSpace((sign + ds + rest)[0])
    ensures sign == "" && ds + rest != [] ==> !IsSign((ds + rest)[0])
  {
    var t, u;
    ws, t := SplitSpaces(s);
    if |t| > 0 && IsSign(t[0]) {
      sign, u := [t[0]], t[1..];
      assert t == sign + u;
    } else {
      sign, u := "", t;
      assert t == sign + u;
    }
    ds, rest := SplitDigits(u);
    assert sign + ds + rest == t;
  }

  /** A numeral on its own reads back as its value. */
  lemma {:induction false} AtolOfDigits(ds: string)
    requires AllDigits(ds)
    ensures Atol(ds) == NumeralValue(ds)
  {
    assert ds + "" == ds;
    AtolUnsigned(ds, "");
  }

  /** Round trip: reading back the decimal numeral of `n` gives `n`. */
  lemma AtolOfDecimal(n: nat)
    ensures Atol(Decimal(n)) == n
  {
    AtolOfDigits(Decimal(n));
    DecimalValue(n);
  }
}
