/** The small option type used wherever the C# code returns a reference or a nullable value
    that may be null. */
module Optional {
  datatype Option<+T> = None | Some(value: T)
}

/** The .NET string operations the game relies on: String.Trim, String.ToLower, int.TryParse,
    int.ToString, String.Split(char) and String.IndexOf(char), written out over seq<char>. */
module Text {
  import opened Optional

  const MinInt32: int := -0x8000_0000
  const MaxInt32: int := 0x7FFF_FFFF

  /** char.IsWhiteSpace: the Unicode space, line and paragraph separators plus the control
      characters U+0009..U+000D and U+0085. */
  predicate IsWhiteSpace(c: char) {
    || ('\U{0009}' <= c <= '\U{000D}') || c == ' ' || c == '\U{0085}' || c == '\U{00A0}'
    || c == '\U{1680}' || ('\U{2000}' <= c <= '\U{200A}') || c == '\U{2028}' || c == '\U{2029}'
    || c == '\U{202F}' || c == '\U{205F}' || c == '\U{3000}'
  }

  /** The first position at or after `i` that holds no white space, or |s| if there is none:
      where String.Trim's result starts when it scans from `i`. */
  function SkipWhiteFrom(s: string, i: nat): (k: nat)
    requires i <= |s|
    ensures i <= k <= |s| && (k == |s| || !IsWhiteSpace(s[k]))
    ensures forall j :: i <= j < k ==> IsWhiteSpace(s[j])
    decreases |s| - i
  {
    if i < |s| && IsWhiteSpace(s[i]) then SkipWhiteFrom(s, i + 1) else i
  }

  /** The position just after the last character of s[lo..e] that is not white space, or `lo`
      if there is none: where String.Trim's result ends when it scans back from `e`. */
  function SkipWhiteBack(s: string, lo: nat, e: nat): (k: nat)
    requires lo <= e <= |s|
    ensures lo <= k <= e && (k == lo || !IsWhiteSpace(s[k - 1]))
    ensures forall j :: k <= j < e ==> IsWhiteSpace(s[j])
  {
    if lo < e && IsWhiteSpace(s[e - 1]) then SkipWhiteBack(s, lo, e - 1) else e
  }

  /** String.Trim(): the slice left once the white space at both ends is removed
      (`TrimRemovesOnlyWhiteSpace` and `TrimIsOnlyTrimmedSlice` say which slice that is). */
  function Trim(s: string): (r: string)
    ensures r == [] || (!IsWhiteSpace(r[0]) && !IsWhiteSpace(r[|r| - 1]))
    ensures var k := SkipWhiteFrom(s, 0); k + |r| <= |s| && r == s[k..k + |r|]
  {
    var k := SkipWhiteFrom(s, 0);
    s[k..SkipWhiteBack(s, k, |s|)]
  }

  /** Trim removes white space only: every character before and after its result is white
      space. */
  lemma TrimRemovesOnlyWhiteSpace(s: string)
    ensures var k := SkipWhiteFrom(s, 0); var r := Trim(s);
      && (forall i :: 0 <= i < k ==> IsWhiteSpace(s[i]))
      && (forall i :: k + |r| <= i < |s| ==> IsWhiteSpace(s[i]))
  {
    var k := SkipWhiteFrom(s, 0);
    assert |Trim(s)| == SkipWhiteBack(s, k, |s|) - k;
  }

  /** In a row of marks, a stretch that is marked all around and unmarked at both of its ends
      is fixed by the marks: two such stretches are both empty or are the same stretch. */
  lemma OnlyUnmarkedStretch(m: seq<bool>, a: nat, b: nat, k: nat, e: nat)
    requires a <= b <= |m| && k <= e <= |m|
    requires forall i :: 0 <= i < a ==> m[i]
    requires forall i :: b <= i < |m| ==> m[i]
    requires a == b || (!m[a] && !m[b - 1])
    requires forall i :: 0 <= i < k ==> m[i]
    requires forall i :: e <= i < |m| ==> m[i]
    requires k == e || (!m[k] && !m[e - 1])
    ensures (a == b && k == e) || (a == k && b == e)
  {
  }

  /** Trim's result is the only slice with white space all around it and none at its ends:
      whatever slice meets that description is the trimmed text. */
  lemma TrimIsOnlyTrimmedSlice(s: string, a: nat, b: nat)
    requires a <= b <= |s|
    requires forall i :: 0 <= i < a ==> IsWhiteSpace(s[i])
    requires forall i :: b <= i < |s| ==> IsWhiteSpace(s[i])
    requires a == b || (!IsWhiteSpace(s[a]) && !IsWhiteSpace(s[b - 1]))
    ensures Trim(s) == s[a..b]
  {
    TrimRemovesOnlyWhiteSpace(s);
    var k := SkipWhiteFrom(s, 0);
    var e := SkipWhiteBack(s, k, |s|);
    var m := seq(|s|, i requires 0 <= i < |s| => IsWhiteSpace(s[i]));
    OnlyUnmarkedStretch(m, a, b, k, e);
  }

  /** A single character that is not white space is its own trimmed and lower-cased form. */
  lemma TrimLowerOne(c: char)
    requires !IsWhiteSpace(c)
    ensures ToLower(Trim([c])) == [LowerChar(c)]
  {
    TrimNothing([c]);
  }

  /** The lower-case form of a character, for the ASCII letters and for the Kelvin sign U+212A,
      the one character outside ASCII whose lower-case form is an ASCII letter the parsers read
      ('k'). Other characters are unchanged. */
  function LowerChar(c: char): char {
    if 'A' <= c <= 'Z' then (c as int + 32) as char
    else if c == '\U{212A}' then 'k'
    else c
  }

  /** The upper-case form of an ASCII lower-case letter; other characters are unchanged. */
  function UpperChar(c: char): char {
    if 'a' <= c <= 'z' then (c as int - 32) as char else c
  }

  /** String.ToLower(), for the characters LowerChar maps. */
  function ToLower(s: string): (r: string)
    ensures |r| == |s|
    ensures forall i :: 0 <= i < |s| ==> r[i] == LowerChar(s[i])
  {
    seq(|s|, i requires 0 <= i < |s| => LowerChar(s[i]))
  }

  predicate IsDigit(c: char) { '0' <= c <= '9' }

  predicate AllDigits(s: string) { forall i :: 0 <= i < |s| ==> IsDigit(s[i]) }

  function DigitValue(c: char): nat requires IsDigit(c) { c as int - '0' as int }

  function DigitChar(d: nat): (c: char)
    requires d < 10
    ensures IsDigit(c) && DigitValue(c) == d
  {
    ('0' as int + d) as char
  }

  /** The value of a string of decimal digits, most significant first. */
  function DigitsValue(s: string): nat
    requires AllDigits(s)
  {
    if s == [] then 0 else DigitsValue(s[..|s| - 1]) * 10 + DigitValue(s[|s| - 1])
  }

  /** The white space int.TryParse skips (NumberStyles.AllowLeadingWhite/AllowTrailingWhite). */
  predicate IsNumberSpace(c: char) { ('\U{0009}' <= c <= '\U{000D}') || c == ' ' }

  function SkipLeading(s: string): (r: string)
    ensures |r| <= |s| && r == s[|s| - |r|..]
    ensures r == [] || !IsNumberSpace(r[0])
  {
    if s != [] && IsNumberSpace(s[0]) then SkipLeading(s[1..]) else s
  }

  function SkipTrailing(s: string): (r: string)
    ensures |r| <= |s| && r == s[..|r|]
    ensures r == [] || !IsNumberSpace(r[|r| - 1])
  {
    if s != [] && IsNumberSpace(s[|s| - 1]) then SkipTrailing(s[..|s| - 1]) else s
  }

  /** int.TryParse(s, out n) with NumberStyles.Integer: optional white space, an optional sign,
      one or more decimal digits, optional white space, and a value within the 32-bit range.
      .NET also accepts trailing '\0' characters after the digits (so "12\0" reads as 12); this
      function refuses them. No answer typed at the console carries a '\0'.
      The out value on failure is 0; callers use `None` for that case. */
  function TryParseInt(s: string): (r: Option<int>)
    ensures r.Some? ==> MinInt32 <= r.value <= MaxInt32
  {
    var t := SkipTrailing(SkipLeading(s));
    if t == [] then None
    else
      var body := if t[0] == '-' || t[0] == '+' then t[1..] else t;
      if body == [] || !AllDigits(body) then None
      else
        var v: int := if t[0] == '-' then 0 - DigitsValue(body) else DigitsValue(body);
        if MinInt32 <= v <= MaxInt32 then Some(v) else None
  }

  /** The value int.TryParse leaves in its out parameter: the parsed number or 0. */
  function ParsedOrZero(s: string): int {
    match TryParseInt(s)
    case Some(v) => v
    case None => 0
  }

  function NatToString(n: nat): (r: string)
    ensures r != [] && AllDigits(r)
  {
    if n < 10 then [DigitChar(n)] else NatToString(n / 10) + [DigitChar(n % 10)]
  }

  /** int.ToString() in a culture whose negative sign is '-'. */
  function IntToString(i: int): (r: string)
    ensures r != [] && !IsNumberSpace(r[0]) && !IsNumberSpace(r[|r| - 1])
  {
    if i < 0 then "-" + NatToString(-i) else NatToString(i)
  }

  lemma {:induction false} NatToStringValue(n: nat)
    ensures DigitsValue(NatToString(n)) == n
  {
    if n >= 10 {
      var s := NatToString(n);
      NatToStringValue(n / 10);
      assert s[..|s| - 1] == NatToString(n / 10);
    }
  }

  lemma SkipNothing(s: string)
    requires s != [] && !IsNumberSpace(s[0]) && !IsNumberSpace(s[|s| - 1])
    ensures SkipTrailing(SkipLeading(s)) == s
  {
  }

  /** Unsigned decimal digits parse to their value when it fits in 32 bits. */
  lemma ParseDigits(d: string)
    requires d != [] && AllDigits(d) && DigitsValue(d) <= MaxInt32
    ensures TryParseInt(d) == Some(DigitsValue(d))
  {
    assert IsDigit(d[0]);
    SkipNothing(d);
  }

  /** A minus sign followed by decimal digits parses to the negated value when it fits. */
  lemma ParseNegativeDigits(d: string)
    requires d != [] && AllDigits(d) && MinInt32 <= 0 - DigitsValue(d)
    ensures TryParseInt("-" + d) == Some(0 - DigitsValue(d))
  {
    var s := ['-'] + d;
    assert s[0] == '-' && s[|s| - 1] == d[|d| - 1] && s[1..] == d;
    SkipNothing(s);
    var t := SkipTrailing(SkipLeading(s));
    assert t == s && t != [] && t[0] == '-';
    var body := t[1..];
    assert body == d && body != [] && AllDigits(body);
  }

  /** Printing a 32-bit integer and parsing it back gives the same integer. */
  lemma ParseIntToString(i: int)
    requires MinInt32 <= i <= MaxInt32
    ensures TryParseInt(IntToString(i)) == Some(i)
  {
    if i < 0 {
      NatToStringValue(-i);
      ParseNegativeDigits(NatToString(-i));
    } else {
      NatToStringValue(i);
      ParseDigits(NatToString(i));
    }
  }

  /** String.IndexOf(char): the position of the first occurrence, if any. */
  function IndexOf(s: string, c: char): (r: Option<nat>)
    ensures r.Some? ==> r.value < |s| && s[r.value] == c && c !in s[..r.value]
    ensures r.None? <==> c !in s
  {
    if s == [] then None
    else if s[0] == c then Some(0)
    else match IndexOf(s[1..], c)
      case None => None
      case Some(k) => assert s[..k + 1] == [s[0]] + s[1..][..k]; Some(k + 1)
  }

  /** String.Split(char): the pieces between the separators, empty pieces included. */
  function Split(s: string, sep: char): (r: seq<string>)
    ensures |r| >= 1
    ensures forall i :: 0 <= i < |r| ==> sep !in r[i]
    decreases |s|
  {
    match IndexOf(s, sep)
    case None => [s]
    case Some(k) => [s[..k]] + Split(s[k + 1..], sep)
  }

  lemma {:induction false} SplitAfter(x: string, sep: char, y: string)
    requires sep !in x
    ensures Split(x + [sep] + y, sep) == [x] + Split(y, sep)
  {
    var s := x + [sep] + y;
    assert s[..|x|] == x;
    assert s[|x| + 1..] == y;
    assert s[|x|] == sep && sep in s;
    assert forall k :: 0 <= k < |x| ==> s[k] == x[k] != sep;
    assert forall k :: |x| < k <= |s| ==> s[..k][|x|] == sep;
    assert IndexOf(s, sep) == Some(|x|);
  }

  /** The pieces of `names` with the separator between each two (String.Join). */
  function Join(names: seq<string>, sep: char): (r: string)
    requires |names| >= 1
  {
    if |names| == 1 then names[0] else names[0] + [sep] + Join(names[1..], sep)
  }

  /** Splitting text joined with a separator that occurs in no piece gives the pieces back. */
  lemma {:induction false} SplitJoin(names: seq<string>, sep: char)
    requires |names| >= 1 && forall i :: 0 <= i < |names| ==> sep !in names[i]
    ensures Split(Join(names, sep), sep) == names
  {
    if |names| == 1 {
      assert IndexOf(names[0], sep) == None;
    } else {
      SplitAfter(names[0], sep, Join(names[1..], sep));
      SplitJoin(names[1..], sep);
      assert names == [names[0]] + names[1..];
    }
  }

  /** The joined text of non-empty pieces starts with the first piece and ends with the last. */
  lemma {:induction false} JoinEnds(names: seq<string>, sep: char)
    requires |names| >= 1 && forall i :: 0 <= i < |names| ==> names[i] != []
    ensures var r := Join(names, sep); r != [] && r[0] == names[0][0] && r[|r| - 1] == names[|names| - 1][|names[|names| - 1]| - 1]
  {
    if |names| > 1 {
      JoinEnds(names[1..], sep);
    }
  }

  /** Text with no white space at either end is its own trimmed form. */
  lemma TrimNothing(s: string)
    requires s == [] || (!IsWhiteSpace(s[0]) && !IsWhiteSpace(s[|s| - 1]))
    ensures Trim(s) == s
  {
    assert SkipWhiteFrom(s, 0) == 0;
    assert s != [] ==> SkipWhiteBack(s, 0, |s|) == |s|;
  }

  /** A number written without white space: ToString of a positive int is its own trimmed form
      and parses back. */
  lemma PositiveToString(i: int)
    requires 0 < i <= MaxInt32
    ensures Trim(IntToString(i)) == IntToString(i)
    ensures ParsedOrZero(Trim(IntToString(i))) == i
  {
    var r := IntToString(i);
    assert AllDigits(r);
    TrimNothing(r);
    ParseIntToString(i);
  }

  /** A lower-cased character is its own lower-case form, and is white space only when the
      character was. */
  lemma LowerCharStable(c: char)
    ensures LowerChar(LowerChar(c)) == LowerChar(c)
    ensures IsWhiteSpace(LowerChar(c)) == IsWhiteSpace(c)
  {
  }

  /** Trimming and lower-casing a second time changes nothing. */
  lemma NormalizeTwice(s: string)
    ensures ToLower(Trim(ToLower(Trim(s)))) == ToLower(Trim(s))
  {
    var t := Trim(s);
    var r := ToLower(t);
    if r != [] {
      LowerCharStable(t[0]);
      LowerCharStable(t[|t| - 1]);
    }
    TrimNothing(r);
    forall i | 0 <= i < |r| ensures LowerChar(r[i]) == r[i] {
      LowerCharStable(t[i]);
    }
    assert ToLower(r) == r;
  }
}
