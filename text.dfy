/**
 * The string operations the scraper applies to extracted text: Python's
 * whitespace classes, `str.isdigit`, `int(str)`, `str.split()[0]`,
 * `str.replace` with a one-character pattern, `" ".join` and the
 * synthetic `col_N` column key.
 */
module Text {
  import opened Wrappers

  /** The characters Python's `str.split()` and `str.strip()` treat as whitespace. */
  predicate IsSpace(c: char) {
    c == ' ' || ('\t' <= c <= '\r') || ('\U{1c}' <= c <= '\U{1f}')
    || c == '\U{85}' || c == '\U{a0}' || c == '\U{1680}'
    || ('\U{2000}' <= c <= '\U{200a}') || c == '\U{2028}' || c == '\U{2029}'
    || c == '\U{202f}' || c == '\U{205f}' || c == '\U{3000}'
  }

  predicate IsDigit(c: char) {
    '0' <= c <= '9'
  }

  predicate AllDigits(s: string) {
    forall i | 0 <= i < |s| :: IsDigit(s[i])
  }

  /** `s.isdigit()` over ASCII digits: non-empty and digits only. */
  predicate IsDigits(s: string) {
    |s| > 0 && AllDigits(s)
  }

  /** The decimal value of a digit string, read left to right. */
  function DigitsValue(s: string): nat
    requires AllDigits(s)
  {
    if s == [] then 0 else 10 * DigitsValue(s[..|s| - 1]) + (s[|s| - 1] as int - '0' as int)
  }

  function DigitChar(d: nat): (c: char)
    requires d < 10
    ensures IsDigit(c) && c as int - '0' as int == d
  {
    ['0', '1', '2', '3', '4', '5', '6', '7', '8', '9'][d]
  }

  /** Python's `str(n)` for a non-negative integer. */
  function NatToString(n: nat): (s: string)
    ensures IsDigits(s)
    ensures |s| > 1 ==> s[0] != '0'
  {
    if n < 10 then [DigitChar(n)] else NatToString(n / 10) + [DigitChar(n % 10)]
  }

  lemma {:induction false} DigitsValueOfNatToString(n: nat)
    ensures DigitsValue(NatToString(n)) == n
  {
    var s := NatToString(n);
    if n >= 10 {
      DigitsValueOfNatToString(n / 10);
      assert s[..|s| - 1] == NatToString(n / 10);
    }
  }

  lemma NatToStringInjective(m: nat, n: nat)
    ensures NatToString(m) == NatToString(n) ==> m == n
  {
    DigitsValueOfNatToString(m);
    DigitsValueOfNatToString(n);
  }

  /** The synthetic key of a cell with no header: Python's `f"col_{idx}"`. */
  function ColKey(idx: nat): (k: string)
    ensures |k| > 4 && k[..4] == "col_"
  {
    "col_" + NatToString(idx)
  }

  lemma ColKeyInjective(i: nat, j: nat)
    ensures ColKey(i) == ColKey(j) ==> i == j
  {
    if ColKey(i) == ColKey(j) {
      assert NatToString(i) == ColKey(i)[4..];
      assert NatToString(j) == ColKey(j)[4..];
      NatToStringInjective(i, j);
    }
  }

  /** Appending three zero digits multiplies the value by a thousand. */
  lemma DigitsTimesThousand(s: string)
    requires AllDigits(s)
    ensures AllDigits(s + "000") && DigitsValue(s + "000") == 1000 * DigitsValue(s)
  {
    var s1, s2, s3 := s + "0", s + "00", s + "000";
    assert s1[..|s1| - 1] == s;
    assert DigitsValue(s1) == 10 * DigitsValue(s);
    assert s2[..|s2| - 1] == s1;
    assert DigitsValue(s2) == 10 * DigitsValue(s1);
    assert s3[..|s3| - 1] == s2;
  }

  function StripLeft(s: string): (r: string)
    ensures |r| <= |s| && r == s[|s| - |r|..]
    ensures r == [] || !IsSpace(r[0])
    ensures forall i | 0 <= i < |s| - |r| :: IsSpace(s[i])
  {
    if s != [] && IsSpace(s[0]) then StripLeft(s[1..]) else s
  }

  function StripRight(s: string): (r: string)
    ensures |r| <= |s| && r == s[..|r|]
    ensures r == [] || !IsSpace(r[|r| - 1])
  {
    if s != [] && IsSpace(s[|s| - 1]) then StripRight(s[..|s| - 1]) else s
  }

  /** Python's `s.strip()`. */
  function Strip(s: string): string {
    StripRight(StripLeft(s))
  }

  /** `s.startswith(prefix)`. */
  predicate StartsWith(s: string, prefix: string) {
    |prefix| <= |s| && s[..|prefix|] == prefix
  }

  /** `sub in s`. */
  predicate Contains(s: string, sub: string) {
    exists i | 0 <= i <= |s| :: StartsWith(s[i..], sub)
  }

  /** `s.replace(pat, "")`: delete the non-overlapping occurrences of `pat`, scanning left to right. */
  function RemoveAll(s: string, pat: string): (r: string)
    requires pat != []
    ensures |r| <= |s|
    decreases |s|
  {
    if |s| < |pat| then s
    else if s[..|pat|] == pat then RemoveAll(s[|pat|..], pat)
    else [s[0]] + RemoveAll(s[1..], pat)
  }

  /** Without an occurrence of `pat`, nothing is deleted. */
  lemma {:induction false} RemoveAllAbsent(s: string, pat: string)
    requires pat != [] && !Contains(s, pat)
    ensures RemoveAll(s, pat) == s
    decreases |s|
  {
    if |s| >= |pat| {
      assert s[0..] == s;
      assert !Contains(s[1..], pat) by {
        forall i | 0 <= i <= |s[1..]| ensures !StartsWith(s[1..][i..], pat) {
          assert s[1..][i..] == s[i + 1..];
        }
      }
      RemoveAllAbsent(s[1..], pat);
      assert s == [s[0]] + s[1..];
    }
  }

  /** A leading occurrence is deleted and the scan goes on after it. */
  lemma RemoveAllLeading(pat: string, s: string)
    requires pat != []
    ensures RemoveAll(pat + s, pat) == RemoveAll(s, pat)
  {
    assert (pat + s)[..|pat|] == pat;
    assert (pat + s)[|pat|..] == s;
  }

  predicate HasNonSpace(s: string) {
    exists i | 0 <= i < |s| :: !IsSpace(s[i])
  }

  function TakeToken(s: string): (r: string)
    ensures |r| <= |s| && r == s[..|r|]
    ensures forall i | 0 <= i < |r| :: !IsSpace(r[i])
    ensures |r| == |s| || IsSpace(s[|r|])
  {
    if s == [] || IsSpace(s[0]) then [] else [s[0]] + TakeToken(s[1..])
  }

  /**
   * Python's `s.split()[0]`: the first maximal run of non-whitespace. Python
   * raises IndexError when `s` holds no such run, hence the precondition.
   */
  function FirstToken(s: string): (r: string)
    requires HasNonSpace(s)
    ensures |r| > 0 && forall i | 0 <= i < |r| :: !IsSpace(r[i])
    ensures (forall i | 0 <= i < |s| :: !IsSpace(s[i])) ==> r == s
  {
    var t := StripLeft(s);
    if t == [] then
      assert false;
      []
    else
      TakeToken(t)
  }

  /** `s.replace(c, rep)` for a one-character pattern `c`. */
  function ReplaceChar(s: string, c: char, rep: string): (r: string)
    ensures c !in s ==> r == s
    ensures c !in rep ==> c !in r
  {
    if s == [] then []
    else (if s[0] == c then rep else [s[0]]) + ReplaceChar(s[1..], c, rep)
  }

  lemma {:induction false} ReplaceCharAppend(a: string, b: string, c: char, rep: string)
    ensures ReplaceChar(a + b, c, rep) == ReplaceChar(a, c, rep) + ReplaceChar(b, c, rep)
  {
    if a != [] {
      var head := if a[0] == c then rep else [a[0]];
      assert (a + b)[0] == a[0] && (a + b)[1..] == a[1..] + b;
      calc {
        ReplaceChar(a + b, c, rep);
        head + ReplaceChar(a[1..] + b, c, rep);
        { ReplaceCharAppend(a[1..], b, c, rep); }
        head + (ReplaceChar(a[1..], c, rep) + ReplaceChar(b, c, rep));
        (head + ReplaceChar(a[1..], c, rep)) + ReplaceChar(b, c, rep);
        ReplaceChar(a, c, rep) + ReplaceChar(b, c, rep);
      }
    } else {
      assert a + b == b;
    }
  }

  /** Python's `sep.join(parts)`. */
  function Join(sep: string, parts: seq<string>): (r: string)
    ensures parts == [] ==> r == ""
    ensures |parts| == 1 ==> r == parts[0]
  {
    if |parts| <= 1 then (if parts == [] then "" else parts[0])
    else Join(sep, parts[..|parts| - 1]) + sep + parts[|parts| - 1]
  }

  /** A join with a non-empty separator is empty exactly when there is nothing, or only "", to join. */
  lemma JoinEmptyIff(sep: string, parts: seq<string>)
    requires sep != ""
    ensures Join(sep, parts) == "" <==> parts == [] || parts == [""]
  {
    if |parts| > 1 {
      assert |Join(sep, parts)| >= |sep|;
    }
  }

  /** The body of a Python integer literal: digits with single underscores between digits. */
  predicate IsIntBody(b: string) {
    && |b| > 0
    && (forall i | 0 <= i < |b| :: IsDigit(b[i]) || b[i] == '_')
    && (forall i | 0 <= i < |b| && b[i] == '_' :: 0 < i < |b| - 1 && IsDigit(b[i - 1]) && IsDigit(b[i + 1]))
  }

  function RemoveUnderscores(b: string): (r: string)
    requires forall i | 0 <= i < |b| :: IsDigit(b[i]) || b[i] == '_'
    ensures AllDigits(r)
    ensures AllDigits(b) ==> r == b
  {
    if b == [] then []
    else (if b[0] == '_' then [] else [b[0]]) + RemoveUnderscores(b[1..])
  }

  /** An optionally signed integer literal without surrounding whitespace. */
  function ParseIntLiteral(t: string): Option<int> {
    var signed := |t| > 0 && (t[0] == '+' || t[0] == '-');
    var body := if signed then t[1..] else t;
    if IsIntBody(body) then
      var n: int := DigitsValue(RemoveUnderscores(body));
      Some(if signed && t[0] == '-' then -n else n)
    else None
  }

  /** Python's `int(s)` on a string: `None` stands for the ValueError it raises. */
  function ParseInt(s: string): Option<int> {
    ParseIntLiteral(Strip(s))
  }

  lemma DigitNotSpace(c: char)
    requires IsDigit(c)
    ensures !IsSpace(c)
  {
  }

  /** A string that starts and ends with a digit has no surrounding whitespace to strip. */
  lemma StripOfDigitEnds(s: string)
    requires |s| > 0 && IsDigit(s[0]) && IsDigit(s[|s| - 1])
    ensures Strip(s) == s
  {
    DigitNotSpace(s[0]);
    DigitNotSpace(s[|s| - 1]);
    assert StripLeft(s) == s;
    assert StripRight(s) == s;
  }

  /** A plain digit string parses to its decimal value. */
  lemma ParseIntOfDigits(s: string)
    requires IsDigits(s)
    ensures ParseInt(s) == Some(DigitsValue(s))
  {
    StripOfDigitEnds(s);
    LiteralOfDigits(s);
  }

  lemma LiteralOfDigits(s: string)
    requires IsDigits(s)
    ensures ParseIntLiteral(s) == Some(DigitsValue(s))
  {
    IntBodyOfDigits(s);
    assert !(s[0] == '+' || s[0] == '-');
  }

  lemma IntBodyOfDigits(s: string)
    requires IsDigits(s)
    ensures IsIntBody(s) && RemoveUnderscores(s) == s
  {
    forall i | 0 <= i < |s| ensures IsDigit(s[i]) && s[i] != '_' {
    }
  }

  lemma ParseIntOfNat(n: nat)
    ensures ParseInt(NatToString(n)) == Some(n)
  {
    ParseIntOfDigits(NatToString(n));
    DigitsValueOfNatToString(n);
  }

  /** A decimal point is not part of a Python integer literal. */
  lemma ParseIntOfPointFails(s: string, i: int)
    requires |s| > 0 && IsDigit(s[0]) && IsDigit(s[|s| - 1])
    requires 0 <= i < |s| && s[i] == '.'
    ensures ParseInt(s) == None
  {
    NotIntBody(s, i);
    StripOfDigitEnds(s);
    assert ParseInt(s) == ParseIntLiteral(s);
  }

  lemma NotIntBody(s: string, i: int)
    requires 0 <= i < |s| && s[i] == '.'
    requires IsDigit(s[0])
    ensures ParseIntLiteral(s) == None
  {
    assert !(s[0] == '+' || s[0] == '-');
    assert !IsIntBody(s);
  }
}
