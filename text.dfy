/**
 * The string operations of the .NET base library that the backend relies on:
 * `string.ToLowerInvariant`, `Path.GetExtension`, `string.Join` and the decimal
 * formatting of an `int` inside an interpolated string.
 */
module Text {

  // ---------------------------------------------------------------------------
  // ToLowerInvariant (ASCII letters only)
  // ---------------------------------------------------------------------------

  predicate IsUpperAscii(c: char) {
    'A' <= c <= 'Z'
  }

  function ToLowerChar(c: char): (r: char)
    ensures !IsUpperAscii(r)
    ensures 'a' <= r <= 'z' <==> ('a' <= c <= 'z' || IsUpperAscii(c))
  {
    if IsUpperAscii(c) then (c as int - 'A' as int + 'a' as int) as char else c
  }

  /** Lower-cases every ASCII capital and leaves every other character as it is. */
  function ToLowerInvariant(s: string): (r: string)
    ensures |r| == |s|
    ensures forall i :: 0 <= i < |s| ==> r[i] == ToLowerChar(s[i])
  {
    if s == [] then [] else [ToLowerChar(s[0])] + ToLowerInvariant(s[1..])
  }

  predicate IsLower(s: string) {
    forall i :: 0 <= i < |s| ==> !IsUpperAscii(s[i])
  }

  /** Lower-casing changes exactly the strings that hold a capital. */
  lemma LowerFixesExactlyLowerStrings(s: string)
    ensures ToLowerInvariant(s) == s <==> IsLower(s)
  {
    if !IsLower(s) {
      var i :| 0 <= i < |s| && IsUpperAscii(s[i]);
      assert ToLowerInvariant(s)[i] != s[i];
    }
  }

  /** Lower-casing twice is lower-casing once. */
  lemma LowerIdempotent(s: string)
    ensures ToLowerInvariant(ToLowerInvariant(s)) == ToLowerInvariant(s)
  {
    LowerFixesExactlyLowerStrings(ToLowerInvariant(s));
  }

  // ---------------------------------------------------------------------------
  // Path.GetExtension
  // ---------------------------------------------------------------------------

  predicate IsDirectorySeparator(c: char) {
    c == '/' || c == '\\'
  }

  /**
   * Position k of `path` starts an extension: a '.' that is not the last
   * character and is followed by neither another '.' nor a directory separator.
   */
  predicate IsExtensionStart(path: string, k: int) {
    && 0 <= k < |path| - 1
    && path[k] == '.'
    && forall j :: k < j < |path| ==> path[j] != '.' && !IsDirectorySeparator(path[j])
  }

  /** Scans `path[..i]` from the right, as the library does, knowing `path[i..]` is dot- and separator-free. */
  function ExtensionScan(path: string, i: nat): (ext: string)
    requires i <= |path|
    requires forall j :: i <= j < |path| ==> path[j] != '.' && !IsDirectorySeparator(path[j])
    ensures ext == "" <==> forall k :: 0 <= k < i ==> !IsExtensionStart(path, k)
    ensures ext != "" ==> exists k :: 0 <= k < i && IsExtensionStart(path, k) && ext == path[k..]
    decreases i
  {
    if i == 0 then ""
    else if path[i - 1] == '.' then
      if i == |path| then ""
      else assert IsExtensionStart(path, i - 1); path[i - 1..]
    else if IsDirectorySeparator(path[i - 1]) then ""
    else ExtensionScan(path, i - 1)
  }

  /**
   * The extension of the last path segment, dot included: the suffix from the
   * last '.' when that dot is not the final character and no separator follows
   * it, and "" otherwise.
   */
  function GetExtension(path: string): (ext: string)
    ensures ext == "" <==> forall k :: 0 <= k < |path| ==> !IsExtensionStart(path, k)
    ensures ext != "" ==> exists k :: IsExtensionStart(path, k) && ext == path[k..]
  {
    ExtensionScan(path, |path|)
  }

  /** A non-empty extension is a dot followed by at least one character and no further dot or separator. */
  lemma ExtensionShape(path: string)
    ensures var ext := GetExtension(path);
      ext != "" ==>
        && |ext| >= 2 && ext[0] == '.'
        && path[|path| - |ext|..] == ext
        && forall j :: 1 <= j < |ext| ==> ext[j] != '.' && !IsDirectorySeparator(ext[j])
  {
    var ext := GetExtension(path);
    if ext != "" {
      var k :| IsExtensionStart(path, k) && ext == path[k..];
      forall j | 1 <= j < |ext|
        ensures ext[j] != '.' && !IsDirectorySeparator(ext[j])
      {
        assert ext[j] == path[k + j];
      }
    }
  }

  // ---------------------------------------------------------------------------
  // string.Join and its inverse, Split
  // ---------------------------------------------------------------------------

  /** The total length of the parts. */
  function TotalLength(parts: seq<string>): nat {
    if parts == [] then 0 else |parts[0]| + TotalLength(parts[1..])
  }

  /** `string.Join(sep, parts)`: the parts in order with `sep` between neighbours. */
  function Join(sep: string, parts: seq<string>): (r: string)
    ensures |parts| >= 1 ==> |r| == TotalLength(parts) + |sep| * (|parts| - 1)
    ensures |parts| >= 1 ==> r[..|parts[0]|] == parts[0]
  {
    if |parts| == 0 then ""
    else if |parts| == 1 then parts[0]
    else parts[0] + sep + Join(sep, parts[1..])
  }

  /** Appending one more part adds the separator and that part at the end. */
  lemma {:induction false} JoinSnoc(sep: string, parts: seq<string>, p: string)
    requires |parts| >= 1
    ensures Join(sep, parts + [p]) == Join(sep, parts) + sep + p
  {
    var all := parts + [p];
    assert all[1..] == parts[1..] + [p];
    if |parts| > 1 {
      JoinSnoc(sep, parts[1..], p);
    }
  }

  predicate Contains(s: string, c: char) {
    exists i :: 0 <= i < |s| && s[i] == c
  }

  /** Index of the first `c` in `s`, or |s| when there is none. */
  function IndexOf(s: string, c: char): (i: nat)
    ensures i <= |s|
    ensures i < |s| ==> s[i] == c
    ensures forall j :: 0 <= j < i ==> s[j] != c
  {
    if s == [] || s[0] == c then 0 else 1 + IndexOf(s[1..], c)
  }

  /** Cuts `s` at every `c`; used only to state that joining loses nothing. */
  function Split(s: string, c: char): (parts: seq<string>)
    ensures |parts| >= 1
    decreases |s|
  {
    var i := IndexOf(s, c);
    if i == |s| then [s] else [s[..i]] + Split(s[i + 1..], c)
  }

  /** Joining lines with one space and cutting at spaces gives the lines back when none holds a space. */
  lemma {:induction false} SplitJoin(parts: seq<string>, c: char)
    requires |parts| >= 1
    requires forall k :: 0 <= k < |parts| ==> !Contains(parts[k], c)
    ensures Split(Join([c], parts), c) == parts
  {
    var s := Join([c], parts);
    if |parts| == 1 {
      assert !Contains(parts[0], c);
      assert IndexOf(s, c) == |s|;
    } else {
      var rest := Join([c], parts[1..]);
      assert s == parts[0] + [c] + rest;
      assert !Contains(parts[0], c);
      var i := IndexOf(s, c);
      assert s[|parts[0]|] == c;
      assert i == |parts[0]|;
      assert s[..i] == parts[0];
      assert s[i + 1..] == rest;
      SplitJoin(parts[1..], c);
      assert parts == [parts[0]] + parts[1..];
    }
  }

  // ---------------------------------------------------------------------------
  // Decimal formatting of an int
  // ---------------------------------------------------------------------------

  predicate IsDigit(c: char) {
    '0' <= c <= '9'
  }

  function DigitChar(d: nat): (c: char)
    requires d < 10
    ensures IsDigit(c) && c as int - '0' as int == d
  {
    (d + '0' as int) as char
  }

  /** The value of a string of decimal digits, most significant digit first; 0 for "". */
  function DigitsValue(s: string): int {
    if s == [] then 0 else DigitsValue(s[..|s| - 1]) * 10 + (s[|s| - 1] as int - '0' as int)
  }

  /** A canonical numeral for a natural: at least one digit, nothing else, and no leading zero unless it is "0". */
  predicate IsNatNumeral(s: string) {
    && |s| >= 1
    && (forall i :: 0 <= i < |s| ==> IsDigit(s[i]))
    && (|s| > 1 ==> s[0] != '0')
  }

  /** The shortest decimal numeral for `n`. */
  function NatToString(n: nat): (r: string)
    ensures IsNatNumeral(r) && DigitsValue(r) == n
    ensures |r| == 1 <==> n < 10
  {
    if n < 10 then [DigitChar(n)]
    else
      var high := NatToString(n / 10);
      var r := high + [DigitChar(n % 10)];
      assert r[..|r| - 1] == high;
      assert r[0] == high[0];
      r
  }

  /** Every canonical numeral is the numeral of its value, so numerals and naturals correspond one to one. */
  lemma {:induction false} NatNumeralUnique(s: string)
    requires IsNatNumeral(s)
    ensures DigitsValue(s) >= 0
    ensures NatToString(DigitsValue(s)) == s
  {
    var n := |s| - 1;
    var high := s[..n];
    assert DigitsValue(s) == DigitsValue(high) * 10 + (s[n] as int - '0' as int);
    if n == 0 {
      assert high == [];
      assert NatToString(DigitsValue(s)) == [DigitChar(DigitsValue(s))];
    } else {
      assert high[0] == s[0];
      NatNumeralUnique(high);
      var v := DigitsValue(s);
      assert v / 10 == DigitsValue(high) && v % 10 == s[n] as int - '0' as int;
      assert NatToString(v) == NatToString(v / 10) + [DigitChar(v % 10)];
      assert s == high + [s[n]];
    }
  }

  /** A canonical numeral for an integer: a natural's numeral, or '-' before a nonzero one. */
  predicate IsIntNumeral(s: string) {
    || IsNatNumeral(s)
    || (|s| >= 2 && s[0] == '-' && IsNatNumeral(s[1..]) && s[1..] != "0")
  }

  /** The value of an integer numeral. */
  function IntValue(s: string): int {
    if |s| >= 1 && s[0] == '-' then -DigitsValue(s[1..]) else DigitsValue(s)
  }

  /** The decimal numeral for `n`, with a leading '-' when it is negative. */
  function IntToString(n: int): (r: string)
    ensures IsIntNumeral(r) && IntValue(r) == n
    ensures r[0] == '-' <==> n < 0
  {
    if n < 0 then
      var r := "-" + NatToString(-n);
      assert r[1..] == NatToString(-n);
      r
    else NatToString(n)
  }

  /** Every canonical integer numeral is the numeral of its value. */
  lemma IntNumeralUnique(s: string)
    requires IsIntNumeral(s)
    ensures IntToString(IntValue(s)) == s
  {
    if IsNatNumeral(s) {
      NatNumeralUnique(s);
    } else {
      NatNumeralUnique(s[1..]);
      assert DigitsValue(s[1..]) != 0;
      assert s == "-" + s[1..];
    }
  }

  /** Distinct naturals have distinct numerals. */
  lemma NatToStringInjective(a: nat, b: nat)
    requires NatToString(a) == NatToString(b)
    ensures a == b
  {
    assert a == DigitsValue(NatToString(a)) == DigitsValue(NatToString(b)) == b;
  }

  /** Distinct integers have distinct numerals. */
  lemma IntToStringInjective(a: int, b: int)
    requires IntToString(a) == IntToString(b)
    ensures a == b
  {
    assert a == IntValue(IntToString(a)) == IntValue(IntToString(b)) == b;
  }
}
