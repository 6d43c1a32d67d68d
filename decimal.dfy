/**
  The textual room identifiers of the rooms service: a slab key (a `usize`)
  becomes an `ID` through its decimal rendering (`From<usize> for ID`), and an
  `ID` becomes a key again through `str::parse::<usize>`.

  Parsing follows Rust's `from_str_radix` for an unsigned type: an empty
  string is `Empty`; a lone sign is `InvalidDigit`; one leading `+` is
  skipped; then the digits are read from left to right, each one first
  checked to be a digit (`InvalidDigit`) and then accumulated with an
  overflow check (`PosOverflow`). Leading zeros are accepted.
*/
module Decimal {
  import opened Wrappers

  /** The largest `usize` on a 64-bit target. */
  const USIZE_MAX: nat := 0xFFFF_FFFF_FFFF_FFFF

  type Usize = n: nat | n <= USIZE_MAX

  /** The kinds of `ParseIntError` that parsing a `usize` can produce. */
  datatype ParseError = Empty | InvalidDigit | PosOverflow

  predicate IsDigit(c: char) {
    '0' <= c <= '9'
  }

  predicate AllDigits(s: string) {
    forall i :: 0 <= i < |s| ==> IsDigit(s[i])
  }

  function DigitValue(c: char): (d: nat)
    requires IsDigit(c)
    ensures d < 10
  {
    (c as int) - ('0' as int)
  }

  function DigitChar(d: nat): (c: char)
    requires d < 10
    ensures IsDigit(c) && DigitValue(c) == d
  {
    (('0' as int) + d) as char
  }

  /** The number a string of decimal digits denotes, most significant first. */
  function Value(s: string): nat
    requires AllDigits(s)
    decreases |s|
  {
    if s == [] then 0 else Value(s[..|s| - 1]) * 10 + DigitValue(s[|s| - 1])
  }

  /** A non-empty digit string without leading zeros: the form `to_string` produces. */
  predicate Canonical(s: string) {
    |s| > 0 && AllDigits(s) && (|s| > 1 ==> s[0] != '0')
  }

  /** The textual form of a key that fits in a `usize`. */
  predicate IsKeyText(s: string) {
    Canonical(s) && Value(s) <= USIZE_MAX
  }

  /** `usize` to `ID`: the decimal rendering of `n`. */
  function Render(n: nat): (s: string)
    ensures Canonical(s) && Value(s) == n
    decreases n
  {
    if n < 10 then
      [DigitChar(n)]
    else
      var prefix := Render(n / 10);
      var s := prefix + [DigitChar(n % 10)];
      assert s[..|s| - 1] == prefix;
      assert |prefix| == 1 ==> prefix[..0] == [];
      s
  }

  /** Strips the one leading `+` that an unsigned parse accepts. */
  function Unsigned(s: string): string {
    if |s| > 0 && s[0] == '+' then s[1..] else s
  }

  /** The digit loop of `from_str_radix`, with the value read so far in `acc`. */
  function ParseDigits(acc: Usize, s: string): Result<Usize, ParseError>
    decreases |s|
  {
    if s == [] then Ok(acc)
    else if !IsDigit(s[0]) then Err(InvalidDigit)
    else if acc * 10 + DigitValue(s[0]) > USIZE_MAX then Err(PosOverflow)
    else ParseDigits(acc * 10 + DigitValue(s[0]), s[1..])
  }


  /** Reading `s + t` is reading `s` and then carrying on with `t`. */
  lemma {:induction false} ParseDigitsAppend(acc: Usize, s: string, t: string)
    ensures ParseDigits(acc, s + t) ==
            if ParseDigits(acc, s).Ok? then ParseDigits(ParseDigits(acc, s).value, t)
            else ParseDigits(acc, s)
    decreases |s|
  {
    if s == [] {
      assert s + t == t;
    } else {
      assert (s + t)[0] == s[0];
      assert (s + t)[1..] == s[1..] + t;
      if IsDigit(s[0]) && acc * 10 + DigitValue(s[0]) <= USIZE_MAX {
        ParseDigitsAppend(acc * 10 + DigitValue(s[0]), s[1..], t);
      }
    }
  }

  /** On a string of digits the loop yields its value, or overflows. */
  lemma {:induction false} ParseDigitsOfDigits(s: string)
    requires AllDigits(s)
    ensures ParseDigits(0, s) == if Value(s) <= USIZE_MAX then Ok(Value(s)) else Err(PosOverflow)
    decreases |s|
  {
    if s != [] {
      var p, c := s[..|s| - 1], s[|s| - 1];
      assert s == p + [c];
      ParseDigitsOfDigits(p);
      ParseDigitsAppend(0, p, [c]);
      assert [c][1..] == [];
    }
  }

  /** The loop never reports `Empty`, and it rejects any string with a non-digit. */
  lemma {:induction false} ParseDigitsRejects(acc: Usize, s: string)
    ensures ParseDigits(acc, s) != Err(Empty)
    ensures !AllDigits(s) ==> ParseDigits(acc, s).Err?
    decreases |s|
  {
    if s != [] && IsDigit(s[0]) && acc * 10 + DigitValue(s[0]) <= USIZE_MAX {
      ParseDigitsRejects(acc * 10 + DigitValue(s[0]), s[1..]);
      if !AllDigits(s) {
        var i :| 0 <= i < |s| && !IsDigit(s[i]);
        assert !IsDigit(s[1..][i - 1]);
      }
    }
  }

  /**
    `str::parse::<usize>`. It accepts exactly an optional `+` followed by a
    non-empty string of digits whose value fits in a `usize`, and the result
    is that value. `Empty` is reported for the empty string and for nothing
    else.
  */
  function ParseUsize(s: string): (r: Result<Usize, ParseError>)
    ensures r == Err(Empty) <==> s == []
    ensures r.Ok? <==> Unsigned(s) != [] && AllDigits(Unsigned(s)) && Value(Unsigned(s)) <= USIZE_MAX
    ensures r.Ok? ==> AllDigits(Unsigned(s)) && r.value == Value(Unsigned(s))
  {
    if s == [] then Err(Empty)
    else if s == "+" || s == "-" then
      assert s == "-" ==> Unsigned(s) == s && !IsDigit(s[0]);
      Err(InvalidDigit)
    else
      var u := Unsigned(s);
      assert |s| == 1 ==> u == s;
      ParseDigitsRejects(0, u);
      if AllDigits(u) then
        ParseDigitsOfDigits(u);
        ParseDigits(0, u)
      else
        ParseDigits(0, u)
  }

  /** Round trip: parsing the rendering of a key gives the key back. */
  lemma ParseRender(n: Usize)
    ensures ParseUsize(Render(n)) == Ok(n)
  {
    var s := Render(n);
    assert IsDigit(s[0]);
    assert Unsigned(s) == s;
  }

  lemma {:induction false} LeadingDigitPositive(s: string)
    requires |s| > 0 && AllDigits(s) && s[0] != '0'
    ensures Value(s) > 0
    decreases |s|
  {
    if |s| > 1 {
      var p := s[..|s| - 1];
      assert p[0] == s[0];
      LeadingDigitPositive(p);
    } else {
      assert s[..0] == [];
    }
  }

  /** A canonical digit string is the rendering of its own value. */
  lemma {:induction false} RenderValue(s: string)
    requires Canonical(s)
    ensures Render(Value(s)) == s
    decreases |s|
  {
    var p, c := s[..|s| - 1], s[|s| - 1];
    assert s == p + [c];
    if |s| == 1 {
      assert p == [];
      assert DigitChar(DigitValue(c)) == c;
    } else {
      assert p[0] == s[0];
      LeadingDigitPositive(p);
      RenderValue(p);
      var n := Value(s);
      assert n == Value(p) * 10 + DigitValue(c);
      assert n / 10 == Value(p) && n % 10 == DigitValue(c);
      assert DigitChar(DigitValue(c)) == c;
    }
  }

  /**
    The other round trip: a canonical `usize` text parses to a key whose
    rendering is that same text. Non-canonical texts such as "07" or "+7"
    parse too, but render back to "7".
  */
  lemma RenderParse(s: string)
    requires IsKeyText(s)
    ensures ParseUsize(s) == Ok(Value(s))
    ensures Render(ParseUsize(s).value) == s
  {
    assert IsDigit(s[0]);
    assert Unsigned(s) == s;
    RenderValue(s);
  }
}
