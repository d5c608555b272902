/** JavaScript values shared by the backend and the frontend models.

    A JavaScript string is a sequence of UTF-16 code units, and `===` on strings
    compares code units. Dafny's `char` is a Unicode scalar value and cannot hold a
    lone surrogate, so strings of the program are modelled as `JsString`.
 */
module JsValues {

  /** One UTF-16 code unit. */
  newtype CodeUnit = x: int | 0 <= x < 0x1_0000

  type JsString = seq<CodeUnit>

  datatype Option<T> = None | Some(value: T)

  /** JavaScript truthiness of an optional string field: `undefined`/`null` and `''` are falsy. */
  predicate Truthy(s: Option<JsString>) {
    s.Some? && s.value != []
  }

  /** The code units of a string literal of the program. Every character of those literals
      lies in the Basic Multilingual Plane, where UTF-16 spends one code unit per character;
      a character outside it, which no literal uses, would become U+FFFD. */
  function Literal(s: string): (r: JsString)
    ensures |r| == |s|
    ensures forall i :: 0 <= i < |s| && s[i] as int < 0x1_0000 ==> r[i] as int == s[i] as int
  {
    seq(|s|, i requires 0 <= i < |s| => if s[i] as int < 0x1_0000 then s[i] as int as CodeUnit else 0xFFFD)
  }

  /** `String.fromCharCode(n)`: the number is reduced modulo 2^16 (ToUint16). */
  function FromCharCode(n: int): (r: JsString)
    ensures |r| == 1 && r[0] as int == n % 0x1_0000
  {
    [(n % 0x1_0000) as CodeUnit]
  }

  // ---------------------------------------------------------------------------
  // Upper-casing

  predicate IsAsciiLower(c: CodeUnit) {
    0x61 <= c <= 0x7A
  }

  function UpperUnit(c: CodeUnit): CodeUnit {
    if IsAsciiLower(c) then c - 0x20 else c
  }

  /** `String.prototype.toUpperCase`, restricted to the ASCII letters a-z. */
  function ToUpperCase(s: JsString): (r: JsString)
    ensures |r| == |s|
    ensures forall i :: 0 <= i < |s| ==> r[i] == UpperUnit(s[i])
    ensures forall i :: 0 <= i < |r| ==> !IsAsciiLower(r[i])
  {
    seq(|s|, i requires 0 <= i < |s| => UpperUnit(s[i]))
  }

  lemma ToUpperCaseIdempotent(s: JsString)
    ensures ToUpperCase(ToUpperCase(s)) == ToUpperCase(s)
  {
  }

  // ---------------------------------------------------------------------------
  // Decimal rendering of a non-negative integer, as template literals do for an index

  function DigitUnit(d: nat): CodeUnit
    requires d < 10
  {
    (0x30 + d) as CodeUnit
  }

  predicate IsDigitUnit(c: CodeUnit) {
    0x30 <= c <= 0x39
  }

  /** The shortest decimal numeral of n (no leading zeros). */
  function Decimal(n: nat): (r: JsString)
    ensures |r| >= 1
    ensures forall i :: 0 <= i < |r| ==> IsDigitUnit(r[i])
    ensures r[|r| - 1] == DigitUnit(n % 10)
    decreases n
  {
    if n < 10 then [DigitUnit(n)] else Decimal(n / 10) + [DigitUnit(n % 10)]
  }

  /** Distinct numbers have distinct decimal numerals. */
  lemma {:induction false} DecimalInjective(m: nat, n: nat)
    requires Decimal(m) == Decimal(n)
    ensures m == n
    decreases m
  {
    var dm, dn := Decimal(m), Decimal(n);
    assert m % 10 == n % 10 by {
      assert dm[|dm| - 1] == DigitUnit(m % 10);
      assert dn[|dn| - 1] == DigitUnit(n % 10);
    }
    if m >= 10 && n >= 10 {
      assert Decimal(m / 10) == dm[..|dm| - 1];
      assert Decimal(n / 10) == dn[..|dn| - 1];
      DecimalInjective(m / 10, n / 10);
    }
  }

  // ---------------------------------------------------------------------------
  // Array.prototype.join

  /** `parts.join(sep)`: it begins with the first part. */
  function Join(parts: seq<JsString>, sep: JsString): (r: JsString)
    ensures parts == [] ==> r == []
    ensures |parts| == 1 ==> r == parts[0]
    ensures |parts| >= 1 ==> parts[0] <= r
    decreases |parts|
  {
    if parts == [] then []
    else if |parts| == 1 then parts[0]
    else parts[0] + sep + Join(parts[1..], sep)
  }

  /** Joining one more part appends the separator and that part. */
  lemma {:induction false} JoinAppend(parts: seq<JsString>, x: JsString, sep: JsString)
    requires |parts| >= 1
    ensures Join(parts + [x], sep) == Join(parts, sep) + sep + x
    decreases |parts|
  {
    if |parts| == 1 {
      assert (parts + [x])[1..] == [x];
    } else {
      assert (parts + [x])[1..] == parts[1..] + [x];
      JoinAppend(parts[1..], x, sep);
    }
  }

  /** Joining two non-empty lists of parts is joining each and putting the separator
      between them. */
  lemma {:induction false} JoinSplit(p: seq<JsString>, q: seq<JsString>, sep: JsString)
    requires |p| >= 1 && |q| >= 1
    ensures Join(p + q, sep) == Join(p, sep) + sep + Join(q, sep)
    decreases |p|
  {
    if |p| == 1 {
      assert (p + q)[1..] == q;
    } else {
      assert (p + q)[1..] == p[1..] + q;
      JoinSplit(p[1..], q, sep);
    }
  }
}
