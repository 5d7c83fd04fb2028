/**
 * The Python string built-ins the message handler relies on: str.strip()
 * with no argument, str.split(sep) with an explicit separator, sep.join and
 * int() on a string in base 10.
 */
module PyText {
  import opened Wrappers

  /** Python's str.isspace() for a single character. */
  predicate IsSpace(c: char) {
    || '\t' <= c <= '\r'
    || '\U{1C}' <= c <= '\U{1F}'
    || c == ' '
    || c == '\U{85}'
    || c == '\U{A0}'
    || c == '\U{1680}'
    || '\U{2000}' <= c <= '\U{200A}'
    || c == '\U{2028}'
    || c == '\U{2029}'
    || c == '\U{202F}'
    || c == '\U{205F}'
    || c == '\U{3000}'
  }

  predicate AllSpace(s: string) {
    forall i :: 0 <= i < |s| ==> IsSpace(s[i])
  }

  /** True when s neither starts nor ends with whitespace. */
  predicate Trimmed(s: string) {
    s == [] || (!IsSpace(s[0]) && !IsSpace(s[|s| - 1]))
  }

  /** Number of whitespace characters at the start of s. */
  function LeftEdge(s: string): (a: nat)
    ensures a <= |s|
    ensures AllSpace(s[..a])
    ensures a < |s| ==> !IsSpace(s[a])
  {
    if s == [] || !IsSpace(s[0]) then 0
    else
      var a' := LeftEdge(s[1..]);
      assert forall i :: 1 <= i < a' + 1 ==> s[i] == s[1..][..a'][i - 1];
      1 + a'
  }

  /** Index just past the last non-whitespace character of s. */
  function RightEdge(s: string): (b: nat)
    ensures b <= |s|
    ensures AllSpace(s[b..])
    ensures 0 < b ==> !IsSpace(s[b - 1])
  {
    if s == [] || !IsSpace(s[|s| - 1]) then |s|
    else
      var b' := RightEdge(s[..|s| - 1]);
      assert forall i :: b' <= i < |s| - 1 ==> s[i] == s[..|s| - 1][b'..][i - b'];
      b'
  }

  /**
   * Python's str.strip(): s without its leading and trailing whitespace.
   * The result neither starts nor ends with whitespace, and is empty
   * exactly when s is all whitespace; StripIsSlice says where it lies in s.
   */
  function Strip(s: string): (r: string)
    ensures Trimmed(r)
    ensures r == [] <==> AllSpace(s)
  {
    var a := LeftEdge(s);
    if a == |s| then
      assert s[..a] == s;
      []
    else
      var b := RightEdge(s);
      assert a < b;
      assert !AllSpace(s) by { assert !IsSpace(s[a]); }
      s[a..b]
  }

  /** str.strip() removes only whitespace, and only at the two ends. */
  lemma StripIsSlice(s: string)
    ensures var r := Strip(s);
      exists a: nat :: a + |r| <= |s| && AllSpace(s[..a]) && s[a..a + |r|] == r && AllSpace(s[a + |r|..])
  {
    var a := LeftEdge(s);
    if a == |s| {
      assert s[a..a] == [];
    } else {
      var b := RightEdge(s);
      var r := Strip(s);
      assert r == s[a..b] && a + |r| == b;
      assert AllSpace(s[..a]) && AllSpace(s[b..]);
    }
  }

  /** Stripping text that is already trimmed leaves it as it is. */
  lemma StripTrimmed(s: string)
    requires Trimmed(s)
    ensures Strip(s) == s
  {
    var r := Strip(s);
    StripIsSlice(s);
    var a: nat :| a + |r| <= |s| && AllSpace(s[..a]) && s[a..a + |r|] == r && AllSpace(s[a + |r|..]);
    if s != [] {
      assert !AllSpace(s) by { assert !IsSpace(s[0]); }
      assert a == 0;
      assert a + |r| == |s|;
    }
  }

  /** str.strip() is idempotent. */
  lemma StripIdempotent(s: string)
    ensures Strip(Strip(s)) == Strip(s)
  {
    StripTrimmed(Strip(s));
  }

  // ---------------------------------------------------------------------
  // Finding, splitting and joining on a separator

  /** sep occurs in s starting at index i. */
  ghost predicate OccursAt(s: string, sep: string, i: int) {
    0 <= i && i + |sep| <= |s| && s[i..i + |sep|] == sep
  }

  /** sep does not occur anywhere in s. */
  ghost predicate Free(s: string, sep: string) {
    forall i :: !OccursAt(s, sep, i)
  }

  /** Every index at which sep occurs in s, overlapping occurrences included. */
  ghost function Occurrences(s: string, sep: string): set<int> {
    set i | 0 <= i <= |s| - |sep| && OccursAt(s, sep, i)
  }

  /**
   * The first occurrence of sep in s at or after index from, or -1 when
   * there is none.
   */
  function FindFrom(s: string, sep: string, from: nat): (r: int)
    requires from <= |s|
    ensures r < 0 ==> r == -1 && forall i :: from <= i ==> !OccursAt(s, sep, i)
    ensures 0 <= r ==> from <= r && OccursAt(s, sep, r)
    ensures forall i :: from <= i < r ==> !OccursAt(s, sep, i)
    decreases |s| - from
  {
    if |s| < from + |sep| then -1
    else if s[from..from + |sep|] == sep then from
    else FindFrom(s, sep, from + 1)
  }

  /** Python's str.find(sep): the index of the first occurrence of sep in s, or -1. */
  function IndexOf(s: string, sep: string): (r: int)
    ensures r < 0 ==> r == -1 && Free(s, sep)
    ensures 0 <= r ==> OccursAt(s, sep, r)
    ensures forall i :: i < r ==> !OccursAt(s, sep, i)
  {
    FindFrom(s, sep, 0)
  }

  /** An occurrence inside a slice of s is an occurrence in s. */
  lemma OccursInSlice(s: string, sep: string, lo: int, hi: int, i: int)
    requires 0 <= lo <= hi <= |s|
    requires OccursAt(s[lo..hi], sep, i)
    ensures OccursAt(s, sep, lo + i)
  {
    forall k | 0 <= k < |sep| ensures s[lo + i..lo + i + |sep|][k] == sep[k] {
      assert s[lo..hi][i..i + |sep|][k] == s[lo + i + k];
    }
  }

  /** Python's sep.join(parts). */
  function Join(parts: seq<string>, sep: string): string
    requires parts != []
  {
    if |parts| == 1 then parts[0] else parts[0] + sep + Join(parts[1..], sep)
  }

  /**
   * Python's s.split(sep) for a non-empty sep: the pieces between the
   * non-overlapping occurrences of sep, found from left to right. No piece
   * contains sep; SplitJoin shows that joining the pieces gives s back.
   */
  function Split(s: string, sep: string): (parts: seq<string>)
    requires sep != []
    ensures parts != []
    ensures forall k :: 0 <= k < |parts| ==> Free(parts[k], sep)
    decreases |s|
  {
    var i := IndexOf(s, sep);
    if i < 0 then [s]
    else
      forall j | OccursAt(s[..i], sep, j) ensures false {
        OccursInSlice(s, sep, 0, i, j);
      }
      [s[..i]] + Split(s[i + |sep|..], sep)
  }

  /** sep.join(s.split(sep)) == s: splitting loses nothing. */
  lemma {:induction false} SplitJoin(s: string, sep: string)
    requires sep != []
    ensures Join(Split(s, sep), sep) == s
    decreases |s|
  {
    var i := IndexOf(s, sep);
    if i >= 0 {
      var rest := s[i + |sep|..];
      SplitJoin(rest, sep);
      assert Split(s, sep) == [s[..i]] + Split(rest, sep);
      assert s == s[..i] + sep + rest;
    }
  }

  /** sep does not occur in the text before its first occurrence. */
  lemma FreeBeforeFirst(s: string, sep: string)
    requires sep != [] && 0 <= IndexOf(s, sep)
    ensures Free(s[..IndexOf(s, sep)], sep)
  {
    var i := IndexOf(s, sep);
    forall j | OccursAt(s[..i], sep, j) ensures false {
      OccursInSlice(s, sep, 0, i, j);
    }
  }

  /**
   * A split into exactly two pieces cuts at the first occurrence of sep,
   * and sep does not occur after it.
   */
  lemma SplitInTwo(s: string, sep: string)
    requires sep != [] && |Split(s, sep)| == 2
    ensures 0 <= IndexOf(s, sep)
    ensures var i := IndexOf(s, sep);
      && Split(s, sep) == [s[..i], s[i + |sep|..]]
      && s == s[..i] + sep + s[i + |sep|..]
      && Free(s[..i], sep)
      && Free(s[i + |sep|..], sep)
  {
    var i := IndexOf(s, sep);
    var rest := s[i + |sep|..];
    assert Split(s, sep) == [s[..i]] + Split(rest, sep);
    assert Split(rest, sep) == [rest];
    FreeBeforeFirst(s, sep);
  }

  /**
   * Where sep occurs, the split cuts at its first occurrence: the first
   * piece is the text before it and the rest is the split of the text after.
   */
  lemma SplitAtFirst(s: string, sep: string)
    requires sep != [] && 0 <= IndexOf(s, sep)
    ensures var i := IndexOf(s, sep);
      && |Split(s, sep)| >= 2
      && Split(s, sep)[0] == s[..i]
      && Split(s, sep)[1..] == Split(s[i + |sep|..], sep)
  {
  }

  /** Splitting text in which sep does not occur gives the text alone. */
  lemma SplitFree(s: string, sep: string)
    requires sep != [] && Free(s, sep)
    ensures Split(s, sep) == [s]
  {
  }

  /**
   * When the first occurrence of sep in s is at i and no occurrence starts
   * at or after the end of that one, the split has exactly two pieces.
   */
  lemma SplitOnce(s: string, sep: string, i: int)
    requires sep != [] && OccursAt(s, sep, i)
    requires forall j :: j != i ==> !OccursAt(s, sep, j)
    ensures Split(s, sep) == [s[..i], s[i + |sep|..]]
  {
    var rest := s[i + |sep|..];
    assert rest == s[i + |sep|..|s|];
    forall j | OccursAt(rest, sep, j) ensures false {
      OccursInSlice(s, sep, i + |sep|, |s|, j);
    }
    SplitFree(rest, sep);
  }

  // ---------------------------------------------------------------------
  // int() on a string, base 10

  predicate IsDigit(c: char) {
    '0' <= c <= '9'
  }

  /** The characters int() can accept once its argument is stripped. */
  predicate IsIntChar(c: char) {
    IsDigit(c) || c == '_' || c == '+' || c == '-'
  }

  /**
   * The digit part of an int() literal: ASCII digits, where a single
   * underscore may stand between two digits.
   */
  predicate DigitGroups(d: string) {
    && d != []
    && IsDigit(d[0])
    && IsDigit(d[|d| - 1])
    && forall i :: 0 <= i < |d| ==> DigitOrJoiner(d, i)
  }

  /** d[i] is a digit, or an underscore with a digit on either side. */
  predicate DigitOrJoiner(d: string, i: nat)
    requires i < |d|
  {
    IsDigit(d[i]) || (d[i] == '_' && 0 < i < |d| - 1 && IsDigit(d[i - 1]) && IsDigit(d[i + 1]))
  }

  /** Digit groups hold only characters int() accepts. */
  lemma DigitGroupsIntChars(d: string)
    requires DigitGroups(d)
    ensures forall i :: 0 <= i < |d| ==> IsIntChar(d[i])
  {
    forall i | 0 <= i < |d| ensures IsIntChar(d[i]) {
      assert DigitOrJoiner(d, i);
    }
  }

  /** The decimal value of the digits of d, underscores skipped. */
  function DigitsValue(d: string): nat {
    if d == [] then 0
    else
      var last := d[|d| - 1];
      var v := DigitsValue(d[..|d| - 1]);
      if IsDigit(last) then 10 * v + (last as int - '0' as int) else v
  }

  /**
   * Python's int(s) for a stripped s: an optional sign, then digit groups.
   * None stands for the ValueError int() raises on anything else.
   */
  function ParseInt(s: string): (r: Option<int>)
    ensures r.Some? ==> s != [] && forall i :: 0 <= i < |s| ==> IsIntChar(s[i])
  {
    if s != [] && (s[0] == '+' || s[0] == '-') then
      var d := s[1..];
      if DigitGroups(d) then
        DigitGroupsIntChars(d);
        assert forall i :: 1 <= i < |s| ==> s[i] == d[i - 1];
        Some(if s[0] == '-' then -(DigitsValue(d) as int) else DigitsValue(d))
      else None
    else if DigitGroups(s) then
      DigitGroupsIntChars(s);
      Some(DigitsValue(s))
    else None
  }

  function DigitChar(k: nat): char
    requires k < 10
  {
    ('0' as int + k) as char
  }

  /** Python's str(n) for a natural number. */
  function ShowNat(n: nat): (s: string)
    ensures s != [] && forall i :: 0 <= i < |s| ==> IsDigit(s[i])
  {
    if n < 10 then [DigitChar(n)] else ShowNat(n / 10) + [DigitChar(n % 10)]
  }

  /** Python's str(n) for an integer. */
  function ShowInt(n: int): string {
    if n < 0 then "-" + ShowNat(-n) else ShowNat(n)
  }

  lemma {:induction false} ShowNatValue(n: nat)
    ensures DigitsValue(ShowNat(n)) == n
  {
    var s := ShowNat(n);
    if n >= 10 {
      ShowNatValue(n / 10);
      assert s[..|s| - 1] == ShowNat(n / 10);
    }
  }

  // ---------------------------------------------------------------------
  // The value int() gives, stated through the text str() would write for it

  /** Every character of d is an ASCII digit. */
  predicate AllDigits(d: string) {
    forall i :: 0 <= i < |d| ==> IsDigit(d[i])
  }

  /** A digit string as str() writes it: no leading zero unless it is "0". */
  predicate NoLeadingZero(d: string) {
    d != [] && (d[0] != '0' || |d| == 1)
  }

  /** d with its underscores removed. */
  function DropUnderscores(d: string): string {
    if d == [] then []
    else
      var last := d[|d| - 1];
      DropUnderscores(d[..|d| - 1]) + (if last == '_' then [] else [last])
  }

  /** d with its leading zeros removed, down to a single digit. */
  function DropLeadingZeros(d: string): string
    decreases |d|
  {
    if |d| > 1 && d[0] == '0' then DropLeadingZeros(d[1..]) else d
  }

  /**
   * The text str() writes for the number an int() literal s denotes: the
   * sign '+', leading zeros and underscores dropped, and "-0" written "0".
   */
  function CanonicalInt(s: string): string {
    if s != [] && (s[0] == '+' || s[0] == '-') then
      var d := DropLeadingZeros(DropUnderscores(s[1..]));
      if s[0] == '-' && d != "0" then "-" + d else d
    else DropLeadingZeros(DropUnderscores(s))
  }

  /** Underscores do not change the value of a digit string. */
  lemma {:induction false} DropUnderscoresValue(d: string)
    ensures DigitsValue(DropUnderscores(d)) == DigitsValue(d)
  {
    if d != [] {
      var p, last := d[..|d| - 1], d[|d| - 1];
      DropUnderscoresValue(p);
      if last != '_' {
        var u := DropUnderscores(p) + [last];
        assert u[..|u| - 1] == DropUnderscores(p);
      } else {
        assert DropUnderscores(d) == DropUnderscores(p);
      }
    }
  }

  /** Without its underscores, digit groups are a non-empty digit string. */
  lemma {:induction false} DropUnderscoresDigits(d: string)
    requires forall i :: 0 <= i < |d| ==> IsDigit(d[i]) || d[i] == '_'
    ensures AllDigits(DropUnderscores(d))
    ensures d != [] && IsDigit(d[|d| - 1]) ==> DropUnderscores(d) != []
  {
    if d != [] {
      var p := d[..|d| - 1];
      DropUnderscoresDigits(p);
    }
  }

  /** A leading zero does not change the value of a digit string. */
  lemma {:induction false} LeadingZeroValue(r: string)
    ensures DigitsValue(['0'] + r) == DigitsValue(r)
    decreases |r|
  {
    var t := ['0'] + r;
    if r != [] {
      LeadingZeroValue(r[..|r| - 1]);
      assert t[..|t| - 1] == ['0'] + r[..|r| - 1];
    } else {
      assert t[..|t| - 1] == [];
    }
  }

  /** Dropping leading zeros keeps the value and leaves the form str() writes. */
  lemma {:induction false} DropLeadingZerosValue(d: string)
    requires d != [] && AllDigits(d)
    ensures var z := DropLeadingZeros(d);
      && NoLeadingZero(z) && AllDigits(z) && DigitsValue(z) == DigitsValue(d)
    decreases |d|
  {
    if |d| > 1 && d[0] == '0' {
      assert d == ['0'] + d[1..];
      LeadingZeroValue(d[1..]);
      DropLeadingZerosValue(d[1..]);
    }
  }

  /** A digit string that does not start with '0' has a positive value. */
  lemma {:induction false} PositiveValue(d: string)
    requires d != [] && AllDigits(d) && d[0] != '0'
    ensures DigitsValue(d) >= 1
    decreases |d|
  {
    var p := d[..|d| - 1];
    if |d| > 1 {
      PositiveValue(p);
    } else {
      assert p == [];
    }
  }

  /** str() of the value of a digit string written without leading zeros is that string. */
  lemma {:induction false} ShowNatOfDigits(d: string)
    requires AllDigits(d) && NoLeadingZero(d)
    ensures ShowNat(DigitsValue(d)) == d
    decreases |d|
  {
    var p, last := d[..|d| - 1], d[|d| - 1];
    var k := last as int - '0' as int;
    assert DigitChar(k) == last;
    if |d| == 1 {
      assert p == [];
      assert d == [last];
    } else {
      PositiveValue(p);
      ShowNatOfDigits(p);
      var v := DigitsValue(d);
      assert v == 10 * DigitsValue(p) + k;
      assert v / 10 == DigitsValue(p) && v % 10 == k;
      assert d == p + [last];
    }
  }

  /** Digit groups without their underscores and leading zeros are str() of their value. */
  lemma CanonicalDigits(d: string)
    requires DigitGroups(d)
    ensures DropLeadingZeros(DropUnderscores(d)) == ShowNat(DigitsValue(d))
  {
    forall i | 0 <= i < |d| ensures IsDigit(d[i]) || d[i] == '_' {
      assert DigitOrJoiner(d, i);
    }
    DropUnderscoresDigits(d);
    DropUnderscoresValue(d);
    DropLeadingZerosValue(DropUnderscores(d));
    ShowNatOfDigits(DropLeadingZeros(DropUnderscores(d)));
  }

  /**
   * The value of every text int() accepts, leading '+', leading zeros and
   * underscores included: str() of it is the literal in canonical form.
   */
  lemma ParseIntCanonical(s: string)
    requires ParseInt(s).Some?
    ensures CanonicalInt(s) == ShowInt(ParseInt(s).value)
  {
    if s[0] == '+' || s[0] == '-' {
      var d := s[1..];
      CanonicalDigits(d);
      var v := DigitsValue(d);
      if s[0] == '-' {
        assert ParseInt(s).value == -(v as int);
        if v == 0 {
          assert ShowNat(v) == "0";
        } else if v < 10 {
          assert ShowNat(v) == [DigitChar(v)];
        } else {
          assert |ShowNat(v)| >= 2;
        }
      }
    } else {
      CanonicalDigits(s);
    }
  }

  /** "365" is one digit group worth 365. */
  lemma Digits365(d: string)
    requires d == "365"
    ensures DigitGroups(d) && DigitsValue(d) == 365
  {
    assert DigitOrJoiner(d, 0) && DigitOrJoiner(d, 1) && DigitOrJoiner(d, 2);
    var a, b := d[..1], d[..2];
    assert a[..0] == [] && b[..1] == a;
    assert DigitsValue(a) == 3;
    assert DigitsValue(b) == 36;
  }

  /** int() accepts a leading '+'. */
  lemma PlusAccepted(s: string)
    requires s == "+365"
    ensures ParseInt(s) == Some(365)
  {
    Digits365(s[1..]);
  }

  /** int() accepts leading zeros. */
  lemma LeadingZeroAccepted(s: string)
    requires s == "0365"
    ensures ParseInt(s) == Some(365)
  {
    assert s == ['0'] + s[1..];
    Digits365(s[1..]);
    LeadingZeroValue(s[1..]);
    assert DigitOrJoiner(s, 0) && DigitOrJoiner(s, 1) && DigitOrJoiner(s, 2) && DigitOrJoiner(s, 3);
  }

  /** int() accepts an underscore between two digits. */
  lemma UnderscoreAccepted(s: string)
    requires s == "3_65"
    ensures ParseInt(s) == Some(365)
  {
    assert DigitOrJoiner(s, 0) && DigitOrJoiner(s, 1) && DigitOrJoiner(s, 2) && DigitOrJoiner(s, 3);
    var a, b, c := s[..1], s[..2], s[..3];
    assert a[..0] == [] && b[..1] == a && c[..2] == b;
    assert DigitsValue(a) == 3;
    assert DigitsValue(b) == 3;
    assert DigitsValue(c) == 36;
  }

  /** int() refuses an underscore that does not stand between two digits, and a bare sign. */
  lemma BadUnderscoresRefused(double: string, leading: string, trailing: string, sign: string)
    requires double == "1__0" && leading == "_1" && trailing == "1_" && sign == "+"
    ensures ParseInt(double) == None && ParseInt(leading) == None
    ensures ParseInt(trailing) == None && ParseInt(sign) == None
  {
    assert !DigitOrJoiner(double, 1);
  }

  /** int() reads back what str() writes, for every integer. */
  lemma ParseShowInt(n: int)
    ensures ParseInt(ShowInt(n)) == Some(n)
  {
    var m := if n < 0 then -n else n;
    ShowNatValue(m);
    var d := ShowNat(m);
    assert DigitGroups(d);
    if n < 0 {
      assert ShowInt(n)[1..] == d;
    }
  }
}
