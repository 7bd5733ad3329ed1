/**
 Attribute values and the conversion of a cell's text into a field's value
 (`AttributeTableWidget._convert_value_for_field`), together with the rendering
 `str(value)` that `load_data` puts into the grid.
 */
module Values {
  import opened Options
  import opened Strings

  /** An attribute value as the host layer holds it. */
  datatype Value =
    | Null               // the host's NULL sentinel
    | Int(n: int)
    | Text(s: string)
    | Host(repr: string) // a float or date built by the host's libraries, known by its str() rendering

  /** A layer field: its name and the host's numeric type code. */
  datatype Field = Field(name: string, typeCode: int)

  /** The parsing the model leaves to the host's libraries: `float(text)` for type
      codes 3 and 4 and `strptime(text, "%Y-%m-%d")` for code 10, giving the parsed
      value's rendering, or None where the library raises `ValueError`. */
  type HostParser = (int, string) -> Option<string>

  predicate IsDigit(c: char) {
    '0' <= c <= '9'
  }

  function DigitValue(c: char): nat
    requires IsDigit(c)
  {
    c as int - '0' as int
  }

  function DigitChar(d: nat): (c: char)
    requires d < 10
    ensures IsDigit(c) && DigitValue(c) == d
  {
    ('0' as int + d) as char
  }

  /** The decimal digits Python's `int()` accepts after an optional sign: at least one
      digit, and single underscores only between two digits. */
  predicate IsDigitRun(s: string) {
    && |s| > 0
    && IsDigit(s[0])
    && IsDigit(s[|s| - 1])
    && (forall k :: 0 <= k < |s| ==> IsDigit(s[k]) || s[k] == '_')
    && (forall k :: 0 < k < |s| && s[k] == '_' ==> s[k - 1] != '_')
  }

  /** The digits of a run with its underscores dropped. */
  function DropUnderscores(s: string): (r: string)
    ensures forall k :: 0 <= k < |r| ==> r[k] != '_'
    ensures (forall k :: 0 <= k < |s| ==> IsDigit(s[k]) || s[k] == '_') ==> forall k :: 0 <= k < |r| ==> IsDigit(r[k])
    ensures (forall k :: 0 <= k < |s| ==> s[k] != '_') ==> r == s
  {
    if |s| == 0 then ""
    else (if s[0] == '_' then "" else [s[0]]) + DropUnderscores(s[1..])
  }

  /** The number a string of decimal digits denotes (most significant digit first). */
  function DigitsValue(s: string): nat
    requires forall k :: 0 <= k < |s| ==> IsDigit(s[k])
  {
    if |s| == 0 then 0 else DigitsValue(s[..|s| - 1]) * 10 + DigitValue(s[|s| - 1])
  }

  function Magnitude(run: string): nat
    requires IsDigitRun(run)
  {
    DigitsValue(DropUnderscores(run))
  }

  /** Python's limit on decimal integer strings (`sys.int_info.default_max_str_digits`):
      `int()` refuses a text with more digits, and `str()` an integer with more. */
  const MaxStrDigits: nat := 4300

  function Abs(n: int): nat {
    if n < 0 then -n else n
  }

  /** The length of the sign `int()` accepts in front of the digits. */
  function SignLength(w: string): nat {
    if |w| > 0 && (w[0] == '+' || w[0] == '-') then 1 else 0
  }

  /** `-m` when `negative`, else `m`. */
  function Signed(negative: bool, m: nat): int {
    if negative then -(m as int) else m as int
  }

  /** `int()` of a text already stripped of surrounding whitespace. */
  function ParseStripped(w: string): (r: Option<int>)
    ensures r.Some? ==> var run := w[SignLength(w)..];
      && IsDigitRun(run)
      && |DropUnderscores(run)| <= MaxStrDigits
      && r.value == Signed(SignLength(w) == 1 && w[0] == '-', Magnitude(run))
  {
    var k := SignLength(w);
    var run := w[k..];
    if IsDigitRun(run) && |DropUnderscores(run)| <= MaxStrDigits then
      Some(Signed(k == 1 && w[0] == '-', Magnitude(run)))
    else None
  }

  /** The ASCII information separators U+001C to U+001F. `str.isspace()` accepts
      them, but `int()` skips only the other whitespace characters, so one of these
      anywhere in the text makes `int()` fail. */
  predicate IsInfoSeparator(c: char) {
    '\U{1C}' <= c <= '\U{1F}'
  }

  /** The whitespace `int()` skips around the number. */
  predicate IsIntSpace(c: char) {
    IsSpace(c) && !IsInfoSeparator(c)
  }

  /** Python's `int(text)` in base 10: surrounding whitespace is ignored, then an
      optional sign and a run of at most `MaxStrDigits` digits; anything else,
      an information separator in particular, is a `ValueError` (None). */
  function ParseInt(text: string): (r: Option<int>)
    ensures (forall k :: 0 <= k < |text| ==> !IsDigit(text[k])) ==> r == None
    ensures r.Some? ==> forall k :: 0 <= k < |text| ==> !IsInfoSeparator(text[k])
    ensures r.Some? ==> var w := Strip(text); var run := w[SignLength(w)..];
      && IsDigitRun(run)
      && |DropUnderscores(run)| <= MaxStrDigits
      && r.value == Signed(SignLength(w) == 1 && w[0] == '-', Magnitude(run))
  {
    if exists k :: 0 <= k < |text| && IsInfoSeparator(text[k]) then None
    else
      var w := Strip(text);
      var r := ParseStripped(w);
      if r.Some? then
        var k := SignLength(w);
        assert w[k..][0] == w[k] && w[k] in text;
        r
      else r
  }

  /** A sign followed by a digit run is read as the signed value of the run. */
  lemma ParseStrippedLiteral(sign: string, run: string)
    requires sign == "" || sign == "+" || sign == "-"
    requires IsDigitRun(run)
    ensures ParseStripped(sign + run) ==
      if |DropUnderscores(run)| > MaxStrDigits then None
      else Some(Signed(sign == "-", Magnitude(run)))
  {
    var core := sign + run;
    assert SignLength(core) == |sign| && core[|sign|..] == run by {
      if sign == "" {
        assert core == run;
      } else {
        assert core[0] == sign[0];
      }
    }
    assert (SignLength(core) == 1 && core[0] == '-') == (sign == "-");
  }

  /** `int()` accepts its own whitespace, an optional sign and a digit run, and
      yields the signed value of the run, unless the run is longer than Python allows. */
  lemma ParseIntAccepts(pre: string, sign: string, run: string, post: string)
    requires forall k :: 0 <= k < |pre| ==> IsIntSpace(pre[k])
    requires forall k :: 0 <= k < |post| ==> IsIntSpace(post[k])
    requires sign == "" || sign == "+" || sign == "-"
    requires IsDigitRun(run)
    ensures ParseInt(pre + sign + run + post) ==
      if |DropUnderscores(run)| > MaxStrDigits then None
      else Some(Signed(sign == "-", Magnitude(run)))
  {
    PaddedLiteralStrips(pre, sign, run, post);
    ParseIntWithoutSeparator(pre + sign + run + post);
    ParseStrippedLiteral(sign, run);
  }

  /** A sign and digit run padded with `int()`'s whitespace holds no separator, and
      stripping it leaves the sign and the run. */
  lemma PaddedLiteralStrips(pre: string, sign: string, run: string, post: string)
    requires forall k :: 0 <= k < |pre| ==> IsIntSpace(pre[k])
    requires forall k :: 0 <= k < |post| ==> IsIntSpace(post[k])
    requires sign == "" || sign == "+" || sign == "-"
    requires IsDigitRun(run)
    ensures forall k :: 0 <= k < |pre + sign + run + post| ==> !IsInfoSeparator((pre + sign + run + post)[k])
    ensures Strip(pre + sign + run + post) == sign + run
  {
    var core := sign + run;
    assert pre + sign + run + post == pre + core + post;
    assert !IsSpace(run[0]) && !IsSpace(run[|run| - 1]);
    assert core[|core| - 1] == run[|run| - 1];
    PaddedLiteralHasNoSeparator(pre, core, post);
    StripPadded(pre, core, post);
  }

  /** Without an information separator, `int()` is the parse of the stripped text. */
  lemma ParseIntWithoutSeparator(text: string)
    requires forall k :: 0 <= k < |text| ==> !IsInfoSeparator(text[k])
    ensures ParseInt(text) == ParseStripped(Strip(text))
  {
  }

  /** A sign and digit run padded with `int()`'s whitespace holds no separator. */
  lemma PaddedLiteralHasNoSeparator(pre: string, core: string, post: string)
    requires forall k :: 0 <= k < |pre| ==> IsIntSpace(pre[k])
    requires forall k :: 0 <= k < |core| ==> IsDigit(core[k]) || core[k] in "+-_"
    requires forall k :: 0 <= k < |post| ==> IsIntSpace(post[k])
    ensures forall k :: 0 <= k < |pre + core + post| ==> !IsInfoSeparator((pre + core + post)[k])
  {
    var text := pre + core + post;
    forall k | 0 <= k < |text|
      ensures !IsInfoSeparator(text[k])
    {
      if k < |pre| {
        assert text[k] == pre[k];
      } else if k < |pre| + |core| {
        assert text[k] == core[k - |pre|];
      } else {
        assert text[k] == post[k - |pre| - |core|];
      }
    }
  }

  /** `str(n)` for a natural number: canonical decimal digits that denote `n`. */
  function NatToString(n: nat): (r: string)
    ensures |r| > 0 && forall k :: 0 <= k < |r| ==> IsDigit(r[k])
    ensures |r| > 1 ==> r[0] != '0'
    ensures DigitsValue(r) == n
  {
    if n < 10 then [DigitChar(n)]
    else
      var r := NatToString(n / 10) + [DigitChar(n % 10)];
      assert r[..|r| - 1] == NatToString(n / 10);
      r
  }

  /** `str(n)` for an integer: a minus sign exactly for negative numbers, then the
      canonical digits of the magnitude. */
  function IntToString(n: int): (r: string)
    ensures |r| > 0 && (r[0] == '-' <==> n < 0)
    ensures var digits := r[if n < 0 then 1 else 0..];
      && |digits| > 0 && (forall k :: 0 <= k < |digits| ==> IsDigit(digits[k]))
      && (|digits| > 1 ==> digits[0] != '0')
      && DigitsValue(digits) == Abs(n)
  {
    if n < 0 then
      var r := "-" + NatToString(-n);
      assert r[1..] == NatToString(-n);
      r
    else NatToString(n)
  }

  /** `str(n)` succeeds: the magnitude has at most `MaxStrDigits` digits. */
  predicate Renderable(n: int) {
    |NatToString(Abs(n))| <= MaxStrDigits
  }

  /** `int(str(n)) == n`: the rendering `load_data` shows parses back to the same
      integer, unless it is longer than Python's `int()` accepts. */
  lemma ParseIntToString(n: int)
    ensures ParseInt(IntToString(n)) == if Renderable(n) then Some(n) else None
  {
    var digits := NatToString(Abs(n));
    var sign := if n < 0 then "-" else "";
    IntToStringShape(n);
    ParseSignedDigits(sign, digits);
    assert Signed(sign == "-", DigitsValue(digits)) == n;
  }

  /** An optional minus sign followed by plain digits is read as their signed value,
      unless there are more digits than Python allows. */
  lemma ParseSignedDigits(sign: string, digits: string)
    requires sign == "" || sign == "-"
    requires |digits| > 0 && forall k :: 0 <= k < |digits| ==> IsDigit(digits[k])
    ensures ParseInt(sign + digits) ==
      if |digits| > MaxStrDigits then None else Some(Signed(sign == "-", DigitsValue(digits)))
  {
    assert IsDigitRun(digits) && Magnitude(digits) == DigitsValue(digits) && DropUnderscores(digits) == digits by {
      DigitsAreRun(digits);
    }
    assert sign + digits == "" + sign + digits + "" by {
      EmptyEdges(sign, digits);
    }
    ParseIntAccepts("", sign, digits, "");
  }

  lemma EmptyEdges(a: string, b: string)
    ensures "" + a + b + "" == a + b
  {
  }

  /** `str(n)` is a minus sign for a negative number followed by the digits of its
      magnitude. */
  lemma IntToStringShape(n: int)
    ensures IntToString(n) == (if n < 0 then "-" else "") + NatToString(Abs(n))
  {
    if n >= 0 {
      assert "" + NatToString(n) == NatToString(n);
    }
  }

  /** A non-empty string of plain digits is a run whose magnitude is its value. */
  lemma DigitsAreRun(digits: string)
    requires |digits| > 0 && forall k :: 0 <= k < |digits| ==> IsDigit(digits[k])
    ensures IsDigitRun(digits) && Magnitude(digits) == DigitsValue(digits)
    ensures DropUnderscores(digits) == digits
  {
    assert DropUnderscores(digits) == digits;
  }

  function Pow10(k: nat): (p: nat)
    ensures p >= 1
  {
    if k == 0 then 1 else 10 * Pow10(k - 1)
  }

  /** k digits denote a number below 10^k. */
  lemma {:induction false} DigitsValueBound(s: string)
    requires forall k :: 0 <= k < |s| ==> IsDigit(s[k])
    ensures DigitsValue(s) < Pow10(|s|)
    decreases |s|
  {
    if |s| > 0 {
      var front := s[..|s| - 1];
      DigitsValueBound(front);
      assert DigitsValue(s) == DigitsValue(front) * 10 + DigitValue(s[|s| - 1]);
      assert DigitsValue(front) * 10 <= (Pow10(|front|) - 1) * 10;
    }
  }

  /** A number below 10^k is written with at most k digits. */
  lemma {:induction false} NatToStringLength(n: nat, k: nat)
    requires 1 <= k && n < Pow10(k)
    ensures |NatToString(n)| <= k
    decreases k
  {
    if n >= 10 {
      assert n / 10 < Pow10(k - 1);
      NatToStringLength(n / 10, k - 1);
    }
  }

  /** Every integer `int()` accepts can be rendered again by `str()`. */
  lemma ParsedIsRenderable(text: string)
    requires ParseInt(text).Some?
    ensures Renderable(ParseInt(text).value)
  {
    var w := Strip(text);
    var run := w[SignLength(w)..];
    var digits := DropUnderscores(run);
    var k := if |digits| == 0 then 1 else |digits|;
    assert Abs(ParseInt(text).value) < Pow10(k) by {
      DigitsValueBound(digits);
      assert Pow10(|digits|) <= Pow10(k);
    }
    NatToStringLength(Abs(ParseInt(text).value), k);
  }

  /** `str(n)` starts with a sign or a digit and ends with a digit, so `strip()` keeps it whole. */
  lemma IntToStringIsUnpadded(n: int)
    ensures var s := IntToString(n); |s| > 0 && (s[0] == '-' || IsDigit(s[0])) && IsDigit(s[|s| - 1])
    ensures Strip(IntToString(n)) == IntToString(n)
  {
    var s := IntToString(n);
    assert s[0] == '-' || IsDigit(s[0]);
    assert !IsSpace(s[0]);
    assert !IsSpace(s[|s| - 1]);
  }

  /** The tokens the conversion turns into NULL: the empty string and "null" or
      "none" in any letter case. */
  predicate IsNullToken(v: string): (r: bool)
    ensures r ==> |v| == 0 || (|v| == 4 && (v[0] == 'n' || v[0] == 'N'))
    ensures r <==> (v == "" || (|v| == 4 && (v[0] == 'n' || v[0] == 'N') &&
      (|| ((v[1] == 'u' || v[1] == 'U') && (v[2] == 'l' || v[2] == 'L') && (v[3] == 'l' || v[3] == 'L'))
       || ((v[1] == 'o' || v[1] == 'O') && (v[2] == 'n' || v[2] == 'N') && (v[3] == 'e' || v[3] == 'E')))))
  {
    var l := ToLower(v);
    LowerSpells(v, "null");
    LowerSpells(v, "none");
    if v == "" || l in ["null", "none", ""] then
      assert |l| == |v|;
      assert |v| > 0 ==> l[0] == 'n' && Lower(v[0]) == 'n';
      true
    else false
  }

  /** A character lowers to the lower-case letter `x` exactly when it is `x` or its
      capital. */
  lemma LowerLetter(c: char, x: char)
    requires 'a' <= x <= 'z'
    ensures Lower(c) == x <==> c == x || c == (x as int - 32) as char
  {
  }

  /** `v.lower() == w` for a four-letter lower-case word `w`, letter by letter. */
  lemma LowerSpells(v: string, w: string)
    requires |w| == 4 && forall k :: 0 <= k < 4 ==> 'a' <= w[k] <= 'z'
    ensures ToLower(v) == w <==> (|v| == 4 &&
      forall k :: 0 <= k < 4 ==> v[k] == w[k] || v[k] == (w[k] as int - 32) as char)
  {
    forall k | 0 <= k < 4 && k < |v| {
      LowerLetter(v[k], w[k]);
    }
    if |v| == 4 && forall k :: 0 <= k < 4 ==> v[k] == w[k] || v[k] == (w[k] as int - 32) as char {
      assert forall k :: 0 <= k < 4 ==> ToLower(v)[k] == w[k];
    }
  }

  /** `_convert_value_for_field(value, field)`: null tokens become NULL for every
      field type; integer fields (codes 1 and 2) get the parsed integer; real and
      date fields (codes 3, 4 and 10) get the host's parse; every other code, text
      (6) included, keeps the string. A failed parse yields the raw string, never NULL. */
  function Convert(v: string, field: Field, parse: HostParser): (r: Value)
    ensures r == Null <==> IsNullToken(v)
    ensures r.Text? ==> r.s == v
    ensures r.Int? ==> field.typeCode in {1, 2} && ParseInt(v) == Some(r.n)
    ensures r.Host? ==> field.typeCode in {3, 4, 10} && parse(field.typeCode, v) == Some(r.repr)
    ensures !IsNullToken(v) && field.typeCode in {1, 2} && ParseInt(v).Some? ==> r.Int?
    ensures !IsNullToken(v) && field.typeCode in {3, 4, 10} && parse(field.typeCode, v).Some? ==> r.Host?
  {
    if IsNullToken(v) then Null
    else if field.typeCode in {1, 2} then
      match ParseInt(v)
      case Some(n) => Int(n)
      case None => Text(v)
    else if field.typeCode in {3, 4, 10} then
      match parse(field.typeCode, v)
      case Some(x) => Host(x)
      case None => Text(v)
    else Text(v)
  }

  /** `str(value)` as `load_data` shows it, NULL shown as the empty string. */
  function Display(v: Value): (r: string)
    ensures v.Null? ==> r == ""
    ensures v.Int? ==> |r| > 0 && Strip(r) == r && !IsNullToken(r)
    ensures v.Int? ==> ParseInt(r) == if Renderable(v.n) then Some(v.n) else None
    ensures v.Text? ==> r == v.s
    ensures v.Host? ==> r == v.repr
  {
    match v
    case Null => ""
    case Int(n) =>
      RenderedInteger(n);
      IntToString(n)
    case Text(s) => s
    case Host(repr) => repr
  }

  /** What the grid shows for an integer: a text without surrounding whitespace that
      is no null token and that `int()` reads back, when Python can render it. */
  lemma RenderedInteger(n: int)
    ensures var r := IntToString(n);
      && |r| > 0 && Strip(r) == r && !IsNullToken(r)
      && ParseInt(r) == if Renderable(n) then Some(n) else None
  {
    IntToStringIsUnpadded(n);
    NotNullTokenByFirstChar(IntToString(n));
    ParseIntToString(n);
  }

  /** A value survives being shown in the grid and converted back unchanged, so a
      re-check of an untouched cell finds no difference. */
  ghost predicate Stable(v: Value, field: Field, parse: HostParser) {
    Convert(Strip(Display(v)), field, parse) == v
  }

  /** NULL is stable in every field, and an integer `str()` can render is stable in
      an integer field. */
  lemma NullAndIntegersAreStable(n: int, field: Field, parse: HostParser)
    ensures Stable(Null, field, parse)
    ensures field.typeCode in {1, 2} && Renderable(n) ==> Stable(Int(n), field, parse)
  {
    if field.typeCode in {1, 2} && Renderable(n) {
      IntegerIsStable(n, field, parse);
    }
  }

  lemma IntegerIsStable(n: int, field: Field, parse: HostParser)
    requires field.typeCode in {1, 2} && Renderable(n)
    ensures Stable(Int(n), field, parse)
  {
    var s := IntToString(n);
    IntToStringIsUnpadded(n);
    NotNullTokenByFirstChar(s);
    ParseIntToString(n);
    assert Convert(s, field, parse) == Int(n);
  }

  /** The host's parsing reads its own renderings back: what it produces has no
      surrounding whitespace, is no null token, and parses to itself. `float` and
      `strptime(..., "%Y-%m-%d").date()` behave so, NaN aside (see README). */
  ghost predicate SelfConsistent(parse: HostParser) {
    forall code, w :: parse(code, w).Some? ==>
      var x := parse(code, w).value;
      Strip(x) == x && !IsNullToken(x) && parse(code, x) == Some(x)
  }

  /** Whatever the conversion makes of a stripped text survives being shown and
      converted again, when the host reads its own renderings back. */
  lemma ConvertedIsStable(w: string, field: Field, parse: HostParser)
    requires SelfConsistent(parse)
    requires Strip(w) == w
    ensures Stable(Convert(w, field, parse), field, parse)
  {
    var v := Convert(w, field, parse);
    match v
    case Null =>
      NullAndIntegersAreStable(0, field, parse);
    case Int(n) =>
      ParsedIsRenderable(w);
      IntegerIsStable(n, field, parse);
    case Text(_) =>
      assert Display(v) == w;
    case Host(x) =>
      assert parse(field.typeCode, w).Some?;
      assert Strip(x) == x && !IsNullToken(x) && parse(field.typeCode, x) == Some(x);
  }

  /** A text whose first character is not a letter is never a null token. */
  lemma NotNullTokenByFirstChar(s: string)
    requires |s| > 0 && (s[0] == '-' || IsDigit(s[0]))
    ensures !IsNullToken(s)
  {
    var l := ToLower(s);
    assert l[0] == s[0];
    assert l != "null" by { assert "null"[0] == 'n'; }
    assert l != "none" by { assert "none"[0] == 'n'; }
  }

  /** In a text field (or one of a type the conversion does not know), a string value
      is stable exactly when it has no surrounding whitespace and is not a null token. */
  lemma TextStableIff(s: string, field: Field, parse: HostParser)
    requires field.typeCode !in {1, 2, 3, 4, 10}
    ensures Stable(Text(s), field, parse) <==> Strip(s) == s && !IsNullToken(s)
  {
  }
}
