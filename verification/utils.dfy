/**
 * The two string helpers of frontend/src/lib/utils.ts: `formatPrice`, which
 * renders integer cents as dollars with two decimals, and `cn`, which joins
 * the truthy class names with single spaces.
 */
module Utils {
  import opened Results

  // ---------------------------------------------------------------------------
  // Decimal digits
  // ---------------------------------------------------------------------------

  predicate IsDigit(c: char) {
    '0' <= c <= '9'
  }

  predicate AllDigits(s: string) {
    forall i :: 0 <= i < |s| ==> IsDigit(s[i])
  }

  function DigitChar(d: nat): (c: char)
    requires d < 10
    ensures IsDigit(c) && c as int - '0' as int == d
  {
    ('0' as int + d) as char
  }

  function DigitValue(c: char): (d: nat)
    requires IsDigit(c)
    ensures d < 10 && DigitChar(d) == c
  {
    c as int - '0' as int
  }

  /** The value of a string of decimal digits, most significant first. */
  function DigitsValue(s: string): nat
    requires AllDigits(s)
  {
    if s == [] then 0 else DigitsValue(s[..|s| - 1]) * 10 + DigitValue(s[|s| - 1])
  }

  /** The decimal numeral of `n`, without leading zeros. */
  function NatToString(n: nat): (s: string)
    ensures |s| >= 1 && AllDigits(s)
    ensures |s| > 1 ==> s[0] != '0'
  {
    if n < 10 then [DigitChar(n)] else NatToString(n / 10) + [DigitChar(n % 10)]
  }

  /** Reading the numeral back gives the number. */
  lemma {:induction false} NatToStringRoundTrip(n: nat)
    ensures DigitsValue(NatToString(n)) == n
  {
    var s := NatToString(n);
    if n >= 10 {
      NatToStringRoundTrip(n / 10);
      assert s[..|s| - 1] == NatToString(n / 10);
    }
  }

  /** Exactly two digits: the cents part of a price. */
  function TwoDigits(n: nat): (s: string)
    requires n < 100
    ensures |s| == 2 && IsDigit(s[0]) && IsDigit(s[1]) && DigitValue(s[0]) * 10 + DigitValue(s[1]) == n
  {
    [DigitChar(n / 10), DigitChar(n % 10)]
  }

  // ---------------------------------------------------------------------------
  // formatPrice
  // ---------------------------------------------------------------------------

  /**
   * `$` followed by `(cents / 100).toFixed(2)`: the whole dollars, a point
   * and the two cent digits; a negative amount carries its minus sign after
   * the dollar sign.
   */
  function FormatPrice(cents: int): (r: string)
    ensures |r| >= 5 && r[0] == '$'
    ensures r[|r| - 3] == '.' && IsDigit(r[|r| - 2]) && IsDigit(r[|r| - 1])
    ensures forall i :: 0 <= i < |r| && r[i] == '.' ==> i == |r| - 3
  {
    var magnitude: nat := if cents < 0 then -cents else cents;
    var dollars := NatToString(magnitude / 100);
    var r := "$" + (if cents < 0 then "-" else "") + dollars + "." + TwoDigits(magnitude % 100);
    assert forall i :: 0 <= i < |dollars| ==> dollars[i] != '.';
    r
  }

  /** Reads an optional minus and a numeral as a whole number of dollars. */
  function ParseDollars(body: string): Option<int> {
    if |body| > 0 && body[0] == '-' then
      if |body| > 1 && AllDigits(body[1..]) then Some(0 - DigitsValue(body[1..])) else None
    else if |body| > 0 && AllDigits(body) then Some(DigitsValue(body))
    else None
  }

  /** Reads back a string of the form `$[-]D.DD`, D a numeral. */
  function ParsePrice(s: string): Option<int> {
    if |s| >= 5 && s[0] == '$' && s[|s| - 3] == '.' && IsDigit(s[|s| - 2]) && IsDigit(s[|s| - 1]) then
      var dollars := ParseDollars(s[1..|s| - 3]);
      var cents := DigitValue(s[|s| - 2]) * 10 + DigitValue(s[|s| - 1]);
      if dollars.None? then None
      else if s[1] == '-' then Some(dollars.value * 100 - cents)
      else Some(dollars.value * 100 + cents)
    else None
  }

  /** A numeral, with or without a minus in front, reads back as its value. */
  lemma ParseDollarsOf(negative: bool, numeral: string)
    requires |numeral| >= 1 && AllDigits(numeral)
    ensures ParseDollars((if negative then "-" else "") + numeral) ==
      Some(if negative then 0 - DigitsValue(numeral) else DigitsValue(numeral))
  {
    var body := (if negative then "-" else "") + numeral;
    if negative {
      assert body[1..] == numeral;
    } else {
      assert body == numeral && IsDigit(body[0]);
    }
  }

  /** Reading a string of the right shape: the dollars, then the two cent digits added or, after a minus, taken away. */
  lemma ParsePriceParts(s: string, dollars: int)
    requires |s| >= 5 && s[0] == '$' && s[|s| - 3] == '.' && IsDigit(s[|s| - 2]) && IsDigit(s[|s| - 1])
    requires ParseDollars(s[1..|s| - 3]) == Some(dollars)
    ensures var cents := DigitValue(s[|s| - 2]) * 10 + DigitValue(s[|s| - 1]);
      ParsePrice(s) == Some(if s[1] == '-' then dollars * 100 - cents else dollars * 100 + cents)
  {
  }

  /** The pieces of a formatted price: the signed dollar numeral between `$` and the point, then the two cent digits. */
  lemma FormatPriceParts(cents: int)
    ensures var s := FormatPrice(cents); var magnitude := if cents < 0 then -cents else cents;
      && s[1..|s| - 3] == (if cents < 0 then "-" else "") + NatToString(magnitude / 100)
      && s[|s| - 2] == TwoDigits(magnitude % 100)[0] && s[|s| - 1] == TwoDigits(magnitude % 100)[1]
  {
    var magnitude: nat := if cents < 0 then -cents else cents;
    var body := (if cents < 0 then "-" else "") + NatToString(magnitude / 100);
    var two := TwoDigits(magnitude % 100);
    var s := FormatPrice(cents);
    assert s == "$" + body + "." + two;
    assert s[1..|s| - 3] == body;
  }

  /** A formatted price reads back as the amount it formats: no two amounts print alike. */
  lemma FormatPriceRoundTrip(cents: int)
    ensures ParsePrice(FormatPrice(cents)) == Some(cents)
  {
    var magnitude: nat := if cents < 0 then -cents else cents;
    var numeral := NatToString(magnitude / 100);
    var s := FormatPrice(cents);
    FormatPriceParts(cents);
    ParseDollarsOf(cents < 0, numeral);
    NatToStringRoundTrip(magnitude / 100);
    var dollars: int := if cents < 0 then 0 - magnitude / 100 else magnitude / 100;
    ParsePriceParts(s, dollars);
    assert s[1] == s[1..|s| - 3][0];
  }

  /** The example of the doc comment. */
  lemma FormatPriceExample()
    ensures FormatPrice(1999) == "$19.99"
  {
    assert NatToString(1) == "1";
    assert NatToString(19) == "19";
    assert TwoDigits(99) == "99";
  }

  // ---------------------------------------------------------------------------
  // cn
  // ---------------------------------------------------------------------------

  /** One argument of `cn`: a class name, or one of the falsy values it accepts. */
  datatype ClassValue = Name(name: string) | False | Null | Undefined

  /** `Boolean(c)`: a non-empty name. */
  predicate Truthy(c: ClassValue) {
    c.Name? && c.name != ""
  }

  /** `classes.filter(Boolean)`: the truthy names, in argument order. */
  function Kept(cs: seq<ClassValue>): (r: seq<string>)
    ensures |r| <= |cs|
    ensures forall x :: x in r ==> x != ""
    ensures forall x :: x in r <==> exists i :: 0 <= i < |cs| && Truthy(cs[i]) && cs[i].name == x
  {
    if cs == [] then []
    else
      var rest := Kept(cs[1..]);
      assert forall i :: 1 <= i < |cs| ==> cs[1..][i - 1] == cs[i];
      if Truthy(cs[0]) then [cs[0].name] + rest else rest
  }

  /** Filtering splits over concatenation, so the kept names stay in argument order. */
  lemma {:induction false} KeptAppend(a: seq<ClassValue>, b: seq<ClassValue>)
    ensures Kept(a + b) == Kept(a) + Kept(b)
  {
    if a == [] {
      assert a + b == b;
    } else {
      assert (a + b)[1..] == a[1..] + b;
      KeptAppend(a[1..], b);
    }
  }

  /** `.join(" ")`. */
  function Join(parts: seq<string>): string {
    if parts == [] then ""
    else if |parts| == 1 then parts[0]
    else parts[0] + " " + Join(parts[1..])
  }

  /** `cn(...classes)`. */
  function Cn(cs: seq<ClassValue>): string {
    Join(Kept(cs))
  }

  /** `cn` gives "" exactly when no argument is truthy. */
  lemma CnEmpty(cs: seq<ClassValue>)
    ensures Cn(cs) == "" <==> forall i :: 0 <= i < |cs| ==> !Truthy(cs[i])
  {
    var kept := Kept(cs);
    if kept != [] {
      assert kept[0] in kept;
      JoinStartsWith(kept);
    } else if exists i :: 0 <= i < |cs| && Truthy(cs[i]) {
      var i :| 0 <= i < |cs| && Truthy(cs[i]);
      assert cs[i].name in kept;
    }
  }

  lemma {:induction false} JoinStartsWith(parts: seq<string>)
    requires parts != []
    ensures |Join(parts)| >= |parts[0]| && Join(parts)[..|parts[0]|] == parts[0]
  {
    if |parts| > 1 {
      assert Join(parts) == parts[0] + (" " + Join(parts[1..]));
    }
  }

  /** With exactly one truthy argument, `cn` gives that argument. */
  lemma CnSingle(cs: seq<ClassValue>, k: nat)
    requires k < |cs| && Truthy(cs[k])
    requires forall i :: 0 <= i < |cs| && i != k ==> !Truthy(cs[i])
    ensures Cn(cs) == cs[k].name
  {
    assert cs == cs[..k] + [cs[k]] + cs[k + 1..];
    KeptAppend(cs[..k] + [cs[k]], cs[k + 1..]);
    KeptAppend(cs[..k], [cs[k]]);
    NoneKept(cs[..k]);
    NoneKept(cs[k + 1..]);
    assert Kept([cs[k]]) == [cs[k].name] by {
      assert [cs[k]][1..] == [];
    }
  }

  lemma NoneKept(cs: seq<ClassValue>)
    requires forall i :: 0 <= i < |cs| ==> !Truthy(cs[i])
    ensures Kept(cs) == []
  {
    if Kept(cs) != [] {
      assert Kept(cs)[0] in Kept(cs);
    }
  }

  /** `s.split(" ")`: the pieces between single spaces. */
  function Split(s: string): (r: seq<string>)
    ensures |r| >= 1
  {
    if s == [] then [""]
    else
      var rest := Split(s[1..]);
      if s[0] == ' ' then [""] + rest else [[s[0]] + rest[0]] + rest[1..]
  }

  /** A piece without spaces, followed by a space, splits off as one part. */
  lemma {:induction false} SplitAfterWord(a: string, b: string)
    requires forall i :: 0 <= i < |a| ==> a[i] != ' '
    ensures Split(a + " " + b) == [a] + Split(b)
    ensures Split(a) == [a]
  {
    if a != [] {
      assert (a + " " + b)[1..] == a[1..] + " " + b;
      SplitAfterWord(a[1..], b);
      assert [a[0]] + a[1..] == a;
    } else {
      assert a + " " + b == [' '] + b;
    }
  }

  lemma {:induction false} SplitJoin(parts: seq<string>)
    requires parts != []
    requires forall p, i :: p in parts && 0 <= i < |p| ==> p[i] != ' '
    ensures Split(Join(parts)) == parts
  {
    if |parts| == 1 {
      SplitAfterWord(parts[0], "");
    } else {
      SplitJoin(parts[1..]);
      SplitAfterWord(parts[0], Join(parts[1..]));
    }
  }

  /**
   * When no class name holds a space, the joined string splits back into the
   * kept names: `cn` loses nothing, reorders nothing and adds only single separators.
   */
  lemma CnSplits(cs: seq<ClassValue>)
    requires exists k :: 0 <= k < |cs| && Truthy(cs[k])
    requires forall k, i :: 0 <= k < |cs| && cs[k].Name? && 0 <= i < |cs[k].name| ==> cs[k].name[i] != ' '
    ensures Split(Cn(cs)) == Kept(cs)
  {
    var k :| 0 <= k < |cs| && Truthy(cs[k]);
    assert cs[k].name in Kept(cs);
    forall p, i | p in Kept(cs) && 0 <= i < |p| ensures p[i] != ' ' {
      var j :| 0 <= j < |cs| && Truthy(cs[j]) && cs[j].name == p;
    }
    SplitJoin(Kept(cs));
  }
}
