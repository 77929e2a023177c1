/** JavaScript's `String.prototype.trim` and the blank test `!s.trim()`
    that every form of the client applies before sending anything. */
module Text {

  /** The characters `trim` removes: ECMAScript WhiteSpace and
      LineTerminator code points. */
  predicate IsJsWhitespace(c: char)
  {
    || c == ' ' || c == '\t' || c == '\n' || c == '\r'
    || c == '\U{000B}' || c == '\U{000C}' || c == '\U{00A0}' || c == '\U{1680}'
    || ('\U{2000}' <= c <= '\U{200A}')
    || c == '\U{2028}' || c == '\U{2029}' || c == '\U{202F}' || c == '\U{205F}'
    || c == '\U{3000}' || c == '\U{FEFF}'
  }

  predicate AllWhitespace(s: string)
  {
    forall i :: 0 <= i < |s| ==> IsJsWhitespace(s[i])
  }

  /** Length of the leading whitespace run of `s`. */
  function LeadingWhitespace(s: string): (k: nat)
    ensures k <= |s|
    ensures AllWhitespace(s[..k])
    ensures k < |s| ==> !IsJsWhitespace(s[k])
  {
    if |s| == 0 || !IsJsWhitespace(s[0]) then 0
    else
      var k' := LeadingWhitespace(s[1..]);
      assert s[1..][..k'] == s[1..k' + 1];
      1 + k'
  }

  /** Position where the trailing whitespace run of `s` starts. */
  function TrailingWhitespace(s: string): (k: nat)
    ensures k <= |s|
    ensures AllWhitespace(s[k..])
    ensures 0 < k ==> !IsJsWhitespace(s[k - 1])
  {
    if |s| == 0 || !IsJsWhitespace(s[|s| - 1]) then |s|
    else
      var k' := TrailingWhitespace(s[..|s| - 1]);
      assert s[k'..] == s[..|s| - 1][k'..] + [s[|s| - 1]];
      k'
  }

  /** `s.trim()`: `s` without its leading and trailing whitespace. */
  function Trim(s: string): (r: string)
    ensures |r| <= |s|
    ensures r == [] <==> AllWhitespace(s)
    ensures r != [] ==> !IsJsWhitespace(r[0]) && !IsJsWhitespace(r[|r| - 1])
    ensures exists a, b :: 0 <= a <= b <= |s| && r == s[a..b] && AllWhitespace(s[..a]) && AllWhitespace(s[b..])
  {
    var a := LeadingWhitespace(s);
    var t := s[a..];
    var b := TrailingWhitespace(t);
    if a == |s| then
      assert s[..a] == s;
      assert AllWhitespace(s[a..]);
      s[a..a]
    else
      assert t[..b][0] == s[a];
      assert t[..b] == s[a..a + b];
      assert s[a + b..] == t[b..];
      assert !AllWhitespace(s) by { assert !IsJsWhitespace(s[a]); }
      t[..b]
  }

  /** The source's `!s.trim()`: the input is empty once trimmed. */
  function IsBlank(s: string): (b: bool)
    ensures b <==> forall i :: 0 <= i < |s| ==> IsJsWhitespace(s[i])
  {
    Trim(s) == []
  }

  /** Trimming is idempotent: a trimmed string is left unchanged. */
  lemma TrimIdempotent(s: string)
    ensures Trim(Trim(s)) == Trim(s)
  {
    var r := Trim(s);
    if r != [] {
      assert !IsJsWhitespace(r[0]);
      assert LeadingWhitespace(r) == 0;
      assert TrailingWhitespace(r[0..]) == |r| by { assert r[0..] == r; }
      assert r[0..][..|r|] == r;
    }
  }

  /** JavaScript's decimal rendering of an integer-valued number. */
  function DecimalString(n: int): string
    decreases if n < 0 then 1 - n else n
  {
    if n < 0 then "-" + DecimalString(-n)
    else if n < 10 then ["0123456789"[n]]
    else DecimalString(n / 10) + ["0123456789"[n % 10]]
  }
}
