/**
 * Text operations of the JavaScript runtime that the engine relies on:
 * whitespace trimming, the integer subset of number literals, parseInt /
 * parseFloat prefixes, number-to-text, split on '.', join with a separator,
 * ASCII upper-casing and code-unit order.
 */
module JsText {
  import opened Wrappers

  predicate IsDigit(c: char) { '0' <= c <= '9' }

  /** White space and line terminators as Number(), trim() and parseFloat() skip them (Latin-1 and BOM subset). */
  predicate IsSpace(c: char) {
    c == ' ' || c == '\t' || c == '\n' || c == '\r' || c == '\U{000B}' || c == '\U{000C}'
    || c == '\U{00A0}' || c == '\U{2028}' || c == '\U{2029}' || c == '\U{FEFF}'
  }

  /** Characters matched by `\w` in a regular expression. */
  predicate IsWordChar(c: char) {
    IsDigit(c) || 'a' <= c <= 'z' || 'A' <= c <= 'Z' || c == '_'
  }

  predicate AllDigits(s: string) {
    forall i :: 0 <= i < |s| ==> IsDigit(s[i])
  }

  function TrimStart(s: string): (r: string)
    ensures |r| <= |s| && r == s[|s| - |r|..]
    ensures r == [] || !IsSpace(r[0])
    ensures forall i :: 0 <= i < |s| - |r| ==> IsSpace(s[i])
  {
    if s != [] && IsSpace(s[0]) then TrimStart(s[1..]) else s
  }

  function TrimEnd(s: string): (r: string)
    ensures |r| <= |s| && r == s[..|r|]
    ensures r == [] || !IsSpace(r[|r| - 1])
    ensures forall i :: |r| <= i < |s| ==> IsSpace(s[i])
  {
    if s != [] && IsSpace(s[|s| - 1]) then TrimEnd(s[..|s| - 1]) else s
  }

  function Trim(s: string): string {
    TrimEnd(TrimStart(s))
  }

  /** Value of a run of decimal digits. */
  function DigitsValue(s: string): nat
    requires AllDigits(s)
  {
    if s == [] then 0 else 10 * DigitsValue(s[..|s| - 1]) + (s[|s| - 1] as int - '0' as int)
  }

  /** An optional sign followed by at least one digit: the number literals this model admits. */
  predicate IsIntLiteral(s: string) {
    if |s| > 0 && (s[0] == '+' || s[0] == '-') then |s| > 1 && AllDigits(s[1..])
    else |s| > 0 && AllDigits(s)
  }

  function LiteralValue(s: string): int
    requires IsIntLiteral(s)
  {
    if s[0] == '-' then 0 - DigitsValue(s[1..]) as int
    else if s[0] == '+' then DigitsValue(s[1..])
    else DigitsValue(s)
  }

  /** Length of the longest prefix of digits. */
  function DigitRun(s: string): (n: nat)
    ensures n <= |s| && AllDigits(s[..n])
    ensures n < |s| ==> !IsDigit(s[n])
  {
    if s != [] && IsDigit(s[0]) then
      var n := 1 + DigitRun(s[1..]);
      assert s[..n] == [s[0]] + s[1..][..n - 1];
      n
    else 0
  }

  /** Sign of a leading '+' or '-' and the text after it. */
  function SignAndBody(t: string): (int, string) {
    if |t| > 0 && t[0] == '-' then (-1, t[1..])
    else if |t| > 0 && t[0] == '+' then (1, t[1..])
    else (1, t)
  }

  /** Decimal `parseInt` on the text: leading white space, an optional sign, then the longest digit prefix. */
  function ParseIntPrefix(s: string): Option<int> {
    var (sign, body) := SignAndBody(TrimStart(s));
    var n := DigitRun(body);
    if n == 0 then None else Some(sign * DigitsValue(body[..n]))
  }

  function NatToString(n: nat): (r: string)
    ensures |r| > 0 && AllDigits(r)
  {
    if n < 10 then ['0' + n as char]
    else NatToString(n / 10) + ['0' + (n % 10) as char]
  }

  /** Number.prototype.toString for an integer. */
  function IntToString(n: int): string {
    if n < 0 then "-" + NatToString(-n) else NatToString(n)
  }

  /** Text before the first occurrence of `c` (all of `s` when `c` does not occur). */
  function UpTo(s: string, c: char): (r: string)
    ensures |r| <= |s| && r == s[..|r|] && c !in r
    ensures |r| < |s| ==> s[|r|] == c
  {
    if s == [] || s[0] == c then [] else [s[0]] + UpTo(s[1..], c)
  }

  /** Text after the first occurrence of `c`, or None when `c` does not occur. */
  function After(s: string, c: char): (r: Option<string>)
    ensures r.None? <==> c !in s
    ensures r.Some? ==> s == UpTo(s, c) + [c] + r.value
  {
    if s == [] then None
    else if s[0] == c then Some(s[1..])
    else After(s[1..], c)
  }

  /** `s.split(".")[0]`. */
  function FirstPart(s: string): string { UpTo(s, '.') }

  /** `s.split(".")[1]`: None stands for `undefined` when `s` holds no '.'. */
  function SecondPart(s: string): Option<string> {
    match After(s, '.')
    case None => None
    case Some(rest) => Some(UpTo(rest, '.'))
  }

  /** The property key a JavaScript value becomes: `undefined` turns into the text "undefined". */
  function KeyText(part: Option<string>): string {
    match part
    case Some(k) => k
    case None => "undefined"
  }

  /** Array.prototype.join over texts. */
  function Join(parts: seq<string>, sep: string): string
  {
    if parts == [] then ""
    else if |parts| == 1 then parts[0]
    else Join(parts[..|parts| - 1], sep) + sep + parts[|parts| - 1]
  }

  function UpperChar(c: char): char {
    if 'a' <= c <= 'z' then (c as int - 32) as char else c
  }

  /** String.prototype.toUpperCase on ASCII letters. */
  function Upper(s: string): (r: string)
    ensures |r| == |s| && forall i :: 0 <= i < |s| ==> r[i] == UpperChar(s[i])
  {
    if s == [] then [] else [UpperChar(s[0])] + Upper(s[1..])
  }

  /** JavaScript string `<`: order of code units, a proper prefix comes first. */
  predicate LexLess(a: string, b: string) {
    if a == [] then b != []
    else if b == [] then false
    else if a[0] != b[0] then a[0] < b[0]
    else LexLess(a[1..], b[1..])
  }

  // ---- Properties ----

  lemma {:induction false} FirstPartOfQualified(t: string, f: string)
    requires '.' !in t
    ensures FirstPart(t + "." + f) == t
    ensures After(t + "." + f, '.') == Some(f)
  {
    if t == [] {
      assert (t + "." + f)[1..] == f;
    } else {
      assert (t + "." + f)[1..] == t[1..] + "." + f;
      FirstPartOfQualified(t[1..], f);
    }
  }

  /** A qualified name `t.f` with dot-free parts splits back into `t` and `f`. */
  lemma SplitQualified(t: string, f: string)
    requires '.' !in t && '.' !in f
    ensures FirstPart(t + "." + f) == t
    ensures SecondPart(t + "." + f) == Some(f)
  {
    FirstPartOfQualified(t, f);
    UpToAbsent(f, '.');
  }

  lemma {:induction false} UpToAbsent(s: string, c: char)
    requires c !in s
    ensures UpTo(s, c) == s
  {
    if s != [] {
      UpToAbsent(s[1..], c);
    }
  }

  /** A name holding no '.' is its own first part and has no second part. */
  lemma SplitUnqualified(s: string)
    requires '.' !in s
    ensures FirstPart(s) == s && SecondPart(s) == None
  {
    UpToAbsent(s, '.');
  }

  lemma {:induction false} DigitsValueAppend(s: string, d: char)
    requires AllDigits(s) && IsDigit(d)
    ensures AllDigits(s + [d]) && DigitsValue(s + [d]) == 10 * DigitsValue(s) + (d as int - '0' as int)
  {
    assert (s + [d])[..|s|] == s;
  }

  lemma {:induction false} NatToStringValue(n: nat)
    ensures DigitsValue(NatToString(n)) == n
  {
    if n >= 10 {
      NatToStringValue(n / 10);
      DigitsValueAppend(NatToString(n / 10), '0' + (n % 10) as char);
    }
  }

  lemma AllDigitsNoSpace(s: string)
    requires AllDigits(s)
    ensures TrimStart(s) == s && TrimEnd(s) == s
  {
  }

  lemma DigitRunAll(s: string)
    requires AllDigits(s)
    ensures DigitRun(s) == |s|
  {
  }

  lemma ParseUnsigned(digits: string)
    requires |digits| > 0 && AllDigits(digits)
    ensures ParseIntPrefix(digits) == Some(DigitsValue(digits))
    ensures SignAndBody(TrimStart(digits)).1 == digits
  {
    DigitRunAll(digits);
    assert digits[..|digits|] == digits;
    AllDigitsNoSpace(digits);
    assert !IsSpace(digits[0]) && digits[0] != '-' && digits[0] != '+';
    assert SignAndBody(TrimStart(digits)) == (1, digits);
  }

  lemma ParseNegative(digits: string)
    requires |digits| > 0 && AllDigits(digits)
    ensures ParseIntPrefix("-" + digits) == Some(0 - DigitsValue(digits))
    ensures SignAndBody(TrimStart("-" + digits)).1 == digits
  {
    DigitRunAll(digits);
    assert digits[..|digits|] == digits;
    var neg := "-" + digits;
    assert neg[0] == '-' && !IsSpace(neg[0]);
    assert TrimStart(neg) == neg;
    assert neg[1..] == digits;
    assert SignAndBody(neg) == (-1, digits);
  }

  /** Round trip: parseInt reads back every integer that toString wrote. */
  lemma IntToStringParses(n: int)
    ensures ParseIntPrefix(IntToString(n)) == Some(n)
    ensures IsIntLiteral(IntToString(n)) && LiteralValue(IntToString(n)) == n
    ensures var body := SignAndBody(TrimStart(IntToString(n))).1; |body| > 0 && IsDigit(body[0])
  {
    var m: nat := if n < 0 then -n else n;
    var digits := NatToString(m);
    NatToStringValue(m);
    ParseUnsigned(digits);
    ParseNegative(digits);
    if n < 0 {
      assert IntToString(n) == "-" + digits;
      assert IntToString(n)[1..] == digits;
    }
  }

  /** Of two texts, at most one is below the other. */
  lemma {:induction false} LexLessAsymmetric(a: string, b: string)
    ensures !(LexLess(a, b) && LexLess(b, a))
  {
    if a != [] && b != [] && a[0] == b[0] {
      LexLessAsymmetric(a[1..], b[1..]);
    }
  }
}
