/** The JavaScript string operations the extension relies on, over `seq<char>`. */
module Text {
  import opened Results

  /** The characters `String.prototype.trim` removes: ECMAScript WhiteSpace and
      LineTerminator code points. */
  predicate IsSpace(c: char) {
    || c == '\t' || c == '\n' || c == '\U{000B}' || c == '\U{000C}' || c == '\r'
    || c == ' ' || c == '\U{00A0}' || c == '\U{1680}'
    || ('\U{2000}' <= c <= '\U{200A}')
    || c == '\U{2028}' || c == '\U{2029}' || c == '\U{202F}' || c == '\U{205F}'
    || c == '\U{3000}' || c == '\U{FEFF}'
  }

  /** `s` begins with `p` (`String.prototype.startsWith`). */
  predicate StartsWith(s: string, p: string) {
    |p| <= |s| && s[..|p|] == p
  }

  /** `t` occurs in `s` at some position (`String.prototype.includes`). */
  predicate Contains(s: string, t: string)
    decreases |s|
  {
    StartsWith(s, t) || (|s| > 0 && Contains(s[1..], t))
  }

  /** The end of the run of white space starting at `i`. */
  function SpaceRunEnd(s: string, i: nat): (j: nat)
    requires i <= |s|
    ensures i <= j <= |s|
    ensures forall k :: i <= k < j ==> IsSpace(s[k])
    ensures j < |s| ==> !IsSpace(s[j])
    decreases |s| - i
  {
    if i < |s| && IsSpace(s[i]) then SpaceRunEnd(s, i + 1) else i
  }

  /** The start of the run of white space that ends at `j`, not going below `lo`. */
  function SpaceRunStart(s: string, lo: nat, j: nat): (m: nat)
    requires lo <= j <= |s|
    ensures lo <= m <= j
    ensures forall k :: m <= k < j ==> IsSpace(s[k])
    ensures m > lo ==> !IsSpace(s[m - 1])
    decreases j
  {
    if j > lo && IsSpace(s[j - 1]) then SpaceRunStart(s, lo, j - 1) else j
  }

  /** `r` is the slice of `s` starting at `i`, and everything of `s` outside that
      slice is white space. */
  predicate TrimmedAt(s: string, r: string, i: int) {
    && 0 <= i && i + |r| <= |s| && r == s[i..i + |r|]
    && (forall k :: 0 <= k < i ==> IsSpace(s[k]))
    && (forall k :: i + |r| <= k < |s| ==> IsSpace(s[k]))
  }

  /** `String.prototype.trim`: the slice of `s` left after dropping white space at
      both ends. */
  function Trim(s: string): (r: string)
    ensures exists i :: TrimmedAt(s, r, i)
    ensures |r| > 0 ==> !IsSpace(r[0]) && !IsSpace(r[|r| - 1])
    ensures (forall k :: 0 <= k < |s| ==> IsSpace(s[k])) <==> r == ""
  {
    var i := SpaceRunEnd(s, 0);
    var m := SpaceRunStart(s, i, |s|);
    assert TrimmedAt(s, s[i..m], i);
    assert m > i ==> s[i..m][0] == s[i] && s[i..m][m - i - 1] == s[m - 1];
    s[i..m]
  }

  /** A string with no white space at either end is its own trim. */
  lemma TrimUnchanged(s: string)
    requires |s| == 0 || (!IsSpace(s[0]) && !IsSpace(s[|s| - 1]))
    ensures Trim(s) == s
  {
    assert SpaceRunEnd(s, 0) == 0;
    assert |s| > 0 ==> SpaceRunStart(s, 0, |s|) == |s|;
    assert s[0..|s|] == s;
  }

  /** Trimming only removes characters. */
  lemma TrimKeepsCharacters(s: string)
    ensures forall c :: c in Trim(s) ==> c in s
  {
    var r := Trim(s);
    var i :| TrimmedAt(s, r, i);
    forall c | c in r ensures c in s {
      var m :| 0 <= m < |r| && r[m] == c;
      assert s[i + m] == c;
    }
  }

  /** Trimming is idempotent. */
  lemma TrimIdempotent(s: string)
    ensures Trim(Trim(s)) == Trim(s)
  {
    TrimUnchanged(Trim(s));
  }

  /** The first position of `c` in `s` (`indexOf`, for a character known to occur). */
  function IndexOf(s: string, c: char): (i: nat)
    requires c in s
    ensures i < |s| && s[i] == c && c !in s[..i]
    decreases |s|
  {
    if s[0] == c then 0
    else
      assert c in s[1..] by { assert s == [s[0]] + s[1..]; }
      var j := IndexOf(s[1..], c);
      assert s[..j + 1] == [s[0]] + s[1..][..j];
      j + 1
  }

  /** `Array.prototype.join`. */
  function Join(parts: seq<string>, sep: string): string
    decreases |parts|
  {
    if |parts| == 0 then ""
    else if |parts| == 1 then parts[0]
    else parts[0] + sep + Join(parts[1..], sep)
  }

  /** `String.prototype.split` with a one-character separator: the pieces of `s`
      between occurrences of `sep`, empty pieces included. */
  function Split(s: string, sep: char): (parts: seq<string>)
    ensures |parts| >= 1
    ensures forall k :: 0 <= k < |parts| ==> sep !in parts[k]
    ensures Join(parts, [sep]) == s
    ensures sep !in s <==> |parts| == 1
    decreases |s|
  {
    if sep !in s then [s]
    else
      var i := IndexOf(s, sep);
      var rest := Split(s[i + 1..], sep);
      assert ([s[..i]] + rest)[1..] == rest;
      assert s == s[..i] + [sep] + s[i + 1..];
      [s[..i]] + rest
  }

  /** The first piece of a split is the text before the first separator. */
  lemma SplitHead(s: string, sep: char)
    ensures Split(s, sep)[0] == if sep in s then s[..IndexOf(s, sep)] else s
  {
  }

  /** Splitting undoes joining when no piece holds the separator. */
  lemma {:induction false} SplitJoin(parts: seq<string>, sep: char)
    requires |parts| >= 1
    requires forall k :: 0 <= k < |parts| ==> sep !in parts[k]
    ensures Split(Join(parts, [sep]), sep) == parts
    decreases |parts|
  {
    if |parts| == 1 {
      assert sep !in parts[0];
    } else {
      var tail := Join(parts[1..], [sep]);
      var s := parts[0] + [sep] + tail;
      assert sep in s by { assert s[|parts[0]|] == sep; }
      assert IndexOf(s, sep) == |parts[0]| by {
        assert s[..|parts[0]|] == parts[0];
      }
      assert s[|parts[0]| + 1..] == tail;
      assert s[..|parts[0]|] == parts[0];
      SplitJoin(parts[1..], sep);
    }
  }

  /** ASCII case folding (`toLowerCase` restricted to A-Z). */
  function LowerChar(c: char): char {
    if 'A' <= c <= 'Z' then (c as int + 32) as char else c
  }

  function Lower(s: string): (r: string)
    ensures |r| == |s|
    ensures forall k :: 0 <= k < |s| ==> r[k] == LowerChar(s[k])
  {
    seq(|s|, k requires 0 <= k < |s| => LowerChar(s[k]))
  }

  predicate IsDigit(c: char) {
    '0' <= c <= '9'
  }

  function DigitChar(d: nat): (c: char)
    requires d < 10
    ensures IsDigit(c) && c as int - '0' as int == d
  {
    ('0' as int + d) as char
  }

  /** The decimal digits of `n`, most significant first, without leading zeros. */
  function Digits(n: nat): (r: string)
    ensures |r| > 0 && forall k :: 0 <= k < |r| ==> IsDigit(r[k])
    decreases n
  {
    if n < 10 then [DigitChar(n)] else Digits(n / 10) + [DigitChar(n % 10)]
  }

  /** `String(n)` for an integer `n`. */
  function Decimal(n: int): string {
    if n < 0 then "-" + Digits(-n) else Digits(n)
  }

  /** The value of a string of decimal digits. */
  function DigitsValue(s: string): nat
    requires forall k :: 0 <= k < |s| ==> IsDigit(s[k])
    decreases |s|
  {
    if |s| == 0 then 0
    else
      assert IsDigit(s[|s| - 1]);
      10 * DigitsValue(s[..|s| - 1]) + (s[|s| - 1] as int - '0' as int)
  }

  /** Reads an optionally negative decimal integer; the inverse of `Decimal`. */
  function ParseInt(s: string): Option<int> {
    if |s| > 0 && s[0] == '-' then
      var t := s[1..];
      if |t| > 0 && forall k :: 0 <= k < |t| ==> IsDigit(t[k]) then Some(-(DigitsValue(t) as int)) else None
    else if |s| > 0 && forall k :: 0 <= k < |s| ==> IsDigit(s[k]) then Some(DigitsValue(s))
    else None
  }

  lemma {:induction false} DigitsValueOfDigits(n: nat)
    ensures DigitsValue(Digits(n)) == n
    decreases n
  {
    if n >= 10 {
      var s := Digits(n);
      assert s[..|s| - 1] == Digits(n / 10);
      DigitsValueOfDigits(n / 10);
    }
  }

  /** Printing an integer and reading it back gives the integer. */
  lemma DecimalRoundTrip(n: int)
    ensures ParseInt(Decimal(n)) == Some(n)
  {
    if n < 0 {
      assert Decimal(n)[1..] == Digits(-n);
      DigitsValueOfDigits(-n);
    } else {
      DigitsValueOfDigits(n);
    }
  }

  /** Distinct integers print differently. */
  lemma DecimalInjective(a: int, b: int)
    requires Decimal(a) == Decimal(b)
    ensures a == b
  {
    DecimalRoundTrip(a);
    DecimalRoundTrip(b);
  }
}
