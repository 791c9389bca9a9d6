/**
  The three pieces of Python's standard library whose behaviour the script
  relies on and that can be stated exactly: `str.strip()` with no argument,
  the decimal rendering of a positive `int` inside an f-string, and
  `os.path.join` on POSIX with two arguments.
 */
module PythonText {

  /** `str.isspace()` for one character: the code points Python treats as
      whitespace (bidirectional class WS, B or S, or category Zs). These are
      exactly the characters `str.strip()` removes when given no argument. */
  predicate IsSpace(c: char) {
    var n := c as int;
    (0x09 <= n <= 0x0D) || (0x1C <= n <= 0x20) || n == 0x85 || n == 0xA0
    || n == 0x1680 || (0x2000 <= n <= 0x200A) || n == 0x2028 || n == 0x2029
    || n == 0x202F || n == 0x205F || n == 0x3000
  }

  /** Every character of `s` from position `lo` up to `hi` (exclusive) is whitespace. */
  predicate SpaceBetween(s: string, lo: nat, hi: nat)
    requires lo <= hi <= |s|
  {
    forall k :: lo <= k < hi ==> IsSpace(s[k])
  }

  /** Neither end of `s` is whitespace. */
  predicate Trimmed(s: string) {
    s == [] || (!IsSpace(s[0]) && !IsSpace(s[|s| - 1]))
  }

  /** The forward scan of `str.strip()`: from position `i`, past the leading
      whitespace, to the first character that is not whitespace (or the end). */
  function TextStart(s: string, i: nat): (b: nat)
    requires i <= |s| && SpaceBetween(s, 0, i)
    ensures i <= b <= |s| && SpaceBetween(s, 0, b)
    ensures b < |s| ==> !IsSpace(s[b])
    decreases |s| - i
  {
    if i == |s| || !IsSpace(s[i]) then i else TextStart(s, i + 1)
  }

  /** The backward scan of `str.strip()`: from position `j`, back over the
      trailing whitespace but never before `b`, to just after the last
      character that is not whitespace. */
  function TextEnd(s: string, b: nat, j: nat): (e: nat)
    requires b <= j <= |s| && SpaceBetween(s, j, |s|)
    ensures b <= e <= j && SpaceBetween(s, e, |s|)
    ensures b < e ==> !IsSpace(s[e - 1])
    decreases j
  {
    if j == b || !IsSpace(s[j - 1]) then j else TextEnd(s, b, j - 1)
  }

  /** `str.strip()` with no argument: the forward scan, then the backward
      scan, and the slice between them. StripSpec and StripUnique say what
      the result is. */
  function Strip(s: string): (r: string)
    ensures |r| <= |s|
  {
    var b := TextStart(s, 0);
    var e := TextEnd(s, b, |s|);
    s[b..e]
  }

  /** The stripped text has whitespace at neither end, it is a slice of `s`,
      and everything cut off on either side of it is whitespace. */
  lemma StripSpec(s: string)
    ensures Trimmed(Strip(s))
    ensures exists i, j :: (0 <= i <= j <= |s| && Strip(s) == s[i..j]
      && SpaceBetween(s, 0, i) && SpaceBetween(s, j, |s|))
  {
    var b := TextStart(s, 0);
    var e := TextEnd(s, b, |s|);
    assert Strip(s) == s[b..e];
  }

  /** The slice described by Strip's contract is unique: any way of cutting a
      whitespace prefix and a whitespace suffix off `s` that leaves a trimmed
      middle yields exactly `Strip(s)`. */
  lemma StripUnique(s: string, i: nat, j: nat)
    requires i <= j <= |s|
    requires SpaceBetween(s, 0, i) && SpaceBetween(s, j, |s|) && Trimmed(s[i..j])
    ensures Strip(s) == s[i..j]
  {
    var b := TextStart(s, 0);
    var e := TextEnd(s, b, |s|);
    if i < j {
      assert !IsSpace(s[i]) && !IsSpace(s[j - 1]) by {
        assert s[i] == s[i..j][0] && s[j - 1] == s[i..j][j - i - 1];
      }
      assert b == i;
      assert e == j;
    }
  }

  /** Stripping twice changes nothing more than stripping once. */
  lemma StripIdempotent(s: string)
    ensures Strip(Strip(s)) == Strip(s)
  {
    var r := Strip(s);
    StripSpec(s);
    assert r[0..|r|] == r;
    StripUnique(r, 0, |r|);
  }

  predicate IsDigit(c: char) {
    '0' <= c <= '9'
  }

  predicate AllDigits(s: string) {
    forall k :: 0 <= k < |s| ==> IsDigit(s[k])
  }

  function DigitChar(d: nat): (c: char)
    requires d < 10
    ensures IsDigit(c) && c as int - '0' as int == d
  {
    ('0' as int + d) as char
  }

  /** The text `f"{n}"` produces for a non-negative int: its decimal digits,
      most significant first, without leading zeros. */
  function Decimal(n: nat): (s: string)
    ensures s != [] && AllDigits(s)
    ensures |s| > 1 ==> s[0] != '0'
  {
    if n < 10 then [DigitChar(n)] else Decimal(n / 10) + [DigitChar(n % 10)]
  }

  /** Reading a digit string back as a number (`int(s)`). */
  function DecimalValue(s: string): nat
    requires AllDigits(s)
  {
    if s == [] then 0
    else DecimalValue(s[..|s| - 1]) * 10 + (s[|s| - 1] as int - '0' as int)
  }

  /** `int(f"{n}") == n`. */
  lemma {:induction false} DecimalRoundTrip(n: nat)
    ensures DecimalValue(Decimal(n)) == n
  {
    if n >= 10 {
      var s := Decimal(n);
      assert s[..|s| - 1] == Decimal(n / 10);
      DecimalRoundTrip(n / 10);
    }
  }

  /** Different numbers are written differently. */
  lemma DecimalInjective(m: nat, n: nat)
    requires m != n
    ensures Decimal(m) != Decimal(n)
  {
    DecimalRoundTrip(m);
    DecimalRoundTrip(n);
  }

  /** `os.path.join(dir, name)` on POSIX: an absolute `name` replaces `dir`;
      otherwise `name` is appended, with a `/` in between unless `dir` is
      empty or already ends with one. */
  function JoinPath(dir: string, name: string): string {
    if name != [] && name[0] == '/' then name
    else if dir == [] || dir[|dir| - 1] == '/' then dir + name
    else dir + "/" + name
  }

  /** The joined path ends with `name`, and starts with `dir` when `name` is
      relative. */
  lemma JoinPathSpec(dir: string, name: string)
    ensures var p := JoinPath(dir, name);
      |name| <= |p| && p[|p| - |name|..] == name
      && (name != [] && name[0] != '/' ==> |dir| <= |p| && p[..|dir|] == dir)
  {
  }

  /** Joining two relative names onto the same directory gives different
      paths for different names. */
  lemma JoinPathInjective(dir: string, name1: string, name2: string)
    requires name1 != [] && name1[0] != '/' && name2 != [] && name2[0] != '/'
    requires JoinPath(dir, name1) == JoinPath(dir, name2)
    ensures name1 == name2
  {
    var p := JoinPath(dir, name1);
    assert |name1| == |name2| by {
      if dir == [] || dir[|dir| - 1] == '/' {
        assert p == dir + name1 == dir + name2;
      } else {
        assert p == dir + "/" + name1 == dir + "/" + name2;
      }
    }
    assert name1 == p[|p| - |name1|..] == name2;
  }
}
