/**
 * The few operations on Python `str` values that the travel assistant's
 * parsers rely on: whitespace, `strip`, `split`, `join`, `startswith`,
 * `in`, `lower`, `replace(pat, '')` and `int()` on a decimal string.
 */
module Text {
  import opened Wrappers

  /** Whitespace as Python's `str.isspace`, `str.strip` and the regex `\s`
      see it, restricted to ASCII: space, tab, newline, carriage return,
      vertical tab, form feed and the four separators 0x1C-0x1F. */
  predicate IsSpace(c: char) {
    c == ' ' || c == '\t' || c == '\n' || c == '\r' || c == '\U{B}' || c == '\U{C}'
    || ('\U{1C}' <= c <= '\U{1F}')
  }

  predicate IsAscii(c: char) {
    c < '\U{80}'
  }

  predicate IsDigit(c: char) {
    '0' <= c <= '9'
  }

  /** `s.startswith(prefix)` */
  predicate StartsWith(s: string, prefix: string) {
    |prefix| <= |s| && s[..|prefix|] == prefix
  }

  /** `pat in s` */
  predicate Contains(s: string, pat: string) {
    exists i :: 0 <= i <= |s| && StartsWith(s[i..], pat)
  }

  function LowerChar(c: char): char {
    if 'A' <= c <= 'Z' then (c as int + 32) as char else c
  }

  /** `s.lower()` on the ASCII letters. */
  function Lower(s: string): (r: string)
    ensures |r| == |s|
  {
    seq(|s|, i requires 0 <= i < |s| => LowerChar(s[i]))
  }

  /** Leading whitespace removed (`s.lstrip()`). */
  function TrimStart(s: string): (r: string)
    ensures |r| <= |s| && r == s[|s| - |r|..]
    ensures r != [] ==> !IsSpace(r[0])
    decreases |s|
  {
    if s != [] && IsSpace(s[0]) then TrimStart(s[1..]) else s
  }

  /** Trailing whitespace removed (`s.rstrip()`). */
  function TrimEnd(s: string): (r: string)
    ensures |r| <= |s| && r == s[..|r|]
    ensures r != [] ==> !IsSpace(r[|r| - 1])
    decreases |s|
  {
    if s != [] && IsSpace(s[|s| - 1]) then TrimEnd(s[..|s| - 1]) else s
  }

  /** `s.strip()`: whitespace cut off both ends. */
  function Strip(s: string): (r: string)
    ensures |r| <= |s|
    ensures r != [] ==> !IsSpace(r[0]) && !IsSpace(r[|r| - 1])
  {
    TrimEnd(TrimStart(s))
  }

  /** `lstrip` cuts off only whitespace. */
  lemma {:induction false} TrimStartCutsSpace(s: string)
    ensures forall i :: 0 <= i < |s| - |TrimStart(s)| ==> IsSpace(s[i])
    decreases |s|
  {
    if s != [] && IsSpace(s[0]) {
      TrimStartCutsSpace(s[1..]);
    }
  }

  /** `rstrip` cuts off only whitespace. */
  lemma {:induction false} TrimEndCutsSpace(s: string)
    ensures forall i :: |TrimEnd(s)| <= i < |s| ==> IsSpace(s[i])
    decreases |s|
  {
    if s != [] && IsSpace(s[|s| - 1]) {
      TrimEndCutsSpace(s[..|s| - 1]);
    }
  }

  /** What `strip` keeps is one slice of the string, and everything it cuts
      off on either side is whitespace. */
  lemma StripIsSlice(s: string)
    ensures var a := |s| - |TrimStart(s)|;
      && a + |Strip(s)| <= |s| && Strip(s) == s[a..a + |Strip(s)|]
      && (forall i :: 0 <= i < a ==> IsSpace(s[i]))
      && (forall i :: a + |Strip(s)| <= i < |s| ==> IsSpace(s[i]))
  {
    StripSlice(s);
    TrimStartCutsSpace(s);
    StripCutsEnd(s);
  }

  lemma StripSlice(s: string)
    ensures var a := |s| - |TrimStart(s)|;
      a + |Strip(s)| <= |s| && Strip(s) == s[a..a + |Strip(s)|]
  {
    var t := TrimStart(s);
    var a := |s| - |t|;
    var r := TrimEnd(t);
    SliceOfSuffix(s, a, |r|);
  }

  lemma SliceOfSuffix(s: string, a: nat, n: nat)
    requires a + n <= |s|
    ensures s[a..][..n] == s[a..a + n]
  {
  }

  lemma StripCutsEnd(s: string)
    ensures forall i :: |s| - |TrimStart(s)| + |Strip(s)| <= i < |s| ==> IsSpace(s[i])
  {
    var t := TrimStart(s);
    var a := |s| - |t|;
    TrimEndCutsSpace(t);
    forall i | a + |TrimEnd(t)| <= i < |s|
      ensures IsSpace(s[i])
    {
      assert s[i] == t[i - a];
    }
  }

  /** A string strips to nothing exactly when it is all whitespace. */
  lemma StripEmptyIff(s: string)
    ensures Strip(s) == [] <==> forall i :: 0 <= i < |s| ==> IsSpace(s[i])
  {
    if forall i :: 0 <= i < |s| ==> IsSpace(s[i]) {
      StripAllSpace(s);
    } else {
      var j :| 0 <= j < |s| && !IsSpace(s[j]);
      StripIsSlice(s);
      var a := |s| - |TrimStart(s)|;
      assert a <= j < a + |Strip(s)|;
    }
  }

  lemma {:induction false} StripAllSpace(s: string)
    requires forall i :: 0 <= i < |s| ==> IsSpace(s[i])
    ensures TrimStart(s) == [] && Strip(s) == []
    decreases |s|
  {
    if s != [] {
      StripAllSpace(s[1..]);
    }
  }

  /** A string without surrounding whitespace strips to itself. */
  lemma StripUnchanged(s: string)
    requires s != [] ==> !IsSpace(s[0]) && !IsSpace(s[|s| - 1])
    ensures Strip(s) == s
  {
  }

  /** Trailing whitespace is cut whatever precedes it. */
  lemma TrimEndSpace(s: string, c: char)
    requires IsSpace(c)
    ensures TrimEnd(s + [c]) == TrimEnd(s)
  {
    assert (s + [c])[..|s|] == s;
  }

  /** `lstrip` leaves a string that starts with no whitespace as it is. */
  lemma TrimStartNone(s: string)
    requires s != [] && !IsSpace(s[0])
    ensures TrimStart(s) == s
  {
  }

  /** `rstrip` leaves a string that ends with no whitespace as it is. */
  lemma TrimEndNone(s: string)
    requires s != [] && !IsSpace(s[|s| - 1])
    ensures TrimEnd(s) == s
  {
  }

  /** `sep.join(parts)` */
  function Join(sep: string, parts: seq<string>): string
    decreases |parts|
  {
    if |parts| == 0 then []
    else if |parts| == 1 then parts[0]
    else parts[0] + sep + Join(sep, parts[1..])
  }

  /** With a nonempty separator the join is empty exactly when there is no
      part, or a single empty one. */
  lemma JoinEmptyIff(sep: string, parts: seq<string>)
    requires sep != []
    ensures Join(sep, parts) == [] <==> |parts| == 0 || (|parts| == 1 && parts[0] == [])
  {
    if |parts| > 1 {
      assert |Join(sep, parts)| >= |sep|;
    }
  }

  lemma JoinTwo(a: string, b: string, sep: string)
    ensures Join(sep, [a, b]) == a + sep + b
  {
    assert [a, b][1..] == [b];
  }

  /** `s.split(sep)` for a one-character separator: the pieces between
      separators, so there is always at least one piece. */
  function Split(s: string, sep: char): (parts: seq<string>)
    ensures |parts| >= 1
    decreases |s|
  {
    if s == [] then [[]]
    else if s[0] == sep then [[]] + Split(s[1..], sep)
    else
      var rest := Split(s[1..], sep);
      [[s[0]] + rest[0]] + rest[1..]
  }

  /** Splitting and re-joining with the separator gives the string back,
      and no piece contains the separator. */
  lemma {:induction false} SplitJoin(s: string, sep: char)
    ensures Join([sep], Split(s, sep)) == s
    ensures forall k, i :: 0 <= k < |Split(s, sep)| && 0 <= i < |Split(s, sep)[k]| ==> Split(s, sep)[k][i] != sep
    decreases |s|
  {
    if s != [] {
      SplitJoin(s[1..], sep);
      var rest := Split(s[1..], sep);
      if s[0] != sep {
        if |rest| == 1 {
          assert Split(s, sep) == [[s[0]] + rest[0]];
        } else {
          assert Split(s, sep)[1..] == rest[1..];
        }
      }
    }
  }

  /** A leading piece free of the separator splits off as the first piece. */
  lemma {:induction false} SplitAfter(a: string, sep: char, b: string)
    requires forall i :: 0 <= i < |a| ==> a[i] != sep
    ensures Split(a + [sep] + b, sep) == [a] + Split(b, sep)
    decreases |a|
  {
    if a != [] {
      assert (a + [sep] + b)[1..] == a[1..] + [sep] + b;
      SplitAfter(a[1..], sep, b);
      assert [a[0]] + a[1..] == a;
    } else {
      assert a + [sep] + b == [sep] + b;
      assert ([sep] + b)[1..] == b;
    }
  }

  /** Joining pieces free of the separator and splitting again gives the
      pieces back. */
  lemma {:induction false} SplitOfJoin(parts: seq<string>, sep: char)
    requires |parts| >= 1
    requires forall k, i :: 0 <= k < |parts| && 0 <= i < |parts[k]| ==> parts[k][i] != sep
    ensures Split(Join([sep], parts), sep) == parts
    decreases |parts|
  {
    if |parts| == 1 {
      SplitNone(parts[0], sep);
    } else {
      var rest := parts[1..];
      assert forall k :: 0 <= k < |rest| ==> rest[k] == parts[k + 1];
      SplitOfJoin(rest, sep);
      SplitAfter(parts[0], sep, Join([sep], rest));
      assert [parts[0]] + rest == parts;
    }
  }

  /** A string free of the separator is a single piece. */
  lemma {:induction false} SplitNone(a: string, sep: char)
    requires forall i :: 0 <= i < |a| ==> a[i] != sep
    ensures Split(a, sep) == [a]
    decreases |a|
  {
    if a != [] {
      SplitNone(a[1..], sep);
      assert [a[0]] + a[1..] == a;
    }
  }

  /** There is one piece more than there are separators. */
  lemma {:induction false} SplitCount(s: string, sep: char)
    ensures |Split(s, sep)| == multiset(s)[sep] + 1
    decreases |s|
  {
    if s != [] {
      SplitCount(s[1..], sep);
      assert s == [s[0]] + s[1..];
    }
  }

  /** `s.replace(pat, '')`: scanning left to right, every occurrence of
      `pat` that does not overlap an earlier removed one is dropped. */
  function RemoveAll(s: string, pat: string): (r: string)
    requires pat != []
    ensures |r| <= |s|
    decreases |s|
  {
    if |s| < |pat| then s
    else if s[..|pat|] == pat then RemoveAll(s[|pat|..], pat)
    else [s[0]] + RemoveAll(s[1..], pat)
  }

  /** Removing a one-character pattern leaves none of that character, and
      shortens the text by the number of its occurrences. */
  lemma {:induction false} RemoveCharAll(s: string, c: char)
    ensures forall i :: 0 <= i < |RemoveAll(s, [c])| ==> RemoveAll(s, [c])[i] != c
    ensures |RemoveAll(s, [c])| == |s| - multiset(s)[c]
    decreases |s|
  {
    if |s| >= 1 {
      RemoveCharAll(s[1..], c);
      assert s == [s[0]] + s[1..];
    }
  }

  /** A single character is dropped exactly when it is the removed one. */
  lemma RemoveCharSingle(d: char, c: char)
    ensures RemoveAll([d], [c]) == if d == c then [] else [d]
  {
    assert [d][..1] == [d] && [d][1..] == [];
  }

  /** Removing a one-character pattern works character by character: it
      distributes over concatenation, so with RemoveCharSingle every other
      character is kept, in order. */
  lemma {:induction false} RemoveCharConcat(x: string, y: string, c: char)
    ensures RemoveAll(x + y, [c]) == RemoveAll(x, [c]) + RemoveAll(y, [c])
    decreases |x|
  {
    if x != [] {
      assert (x + y)[1..] == x[1..] + y;
      assert (x + y)[..1] == x[..1] == [x[0]];
      RemoveCharConcat(x[1..], y, c);
      if x[0] != c {
        assert RemoveAll(x + y, [c]) == [x[0]] + RemoveAll(x[1..] + y, [c]);
        assert RemoveAll(x, [c]) == [x[0]] + RemoveAll(x[1..], [c]);
      }
    } else {
      assert x + y == y;
    }
  }

  /** A leading part that holds no character starting the pattern is kept
      untouched. */
  lemma {:induction false} RemoveAllKeepsPrefix(x: string, y: string, pat: string)
    requires pat != []
    requires forall i :: 0 <= i < |x| ==> x[i] != pat[0]
    ensures RemoveAll(x + y, pat) == x + RemoveAll(y, pat)
    decreases |x|
  {
    if x != [] {
      var s := x + y;
      if |s| < |pat| {
        RemoveAllShort(s, pat);
        RemoveAllShort(y, pat);
      } else {
        assert s[..|pat|][0] == x[0] != pat[0];
        assert s[..|pat|] != pat;
        assert s[1..] == x[1..] + y;
        assert RemoveAll(s, pat) == [s[0]] + RemoveAll(s[1..], pat);
        RemoveAllKeepsPrefix(x[1..], y, pat);
        calc {
          RemoveAll(s, pat);
          [x[0]] + RemoveAll(x[1..] + y, pat);
          [x[0]] + (x[1..] + RemoveAll(y, pat));
          { assert [x[0]] + x[1..] == x; }
          x + RemoveAll(y, pat);
        }
      }
    } else {
      assert x + y == y;
    }
  }

  lemma RemoveAllShort(s: string, pat: string)
    requires pat != [] && |s| < |pat|
    ensures RemoveAll(s, pat) == s
  {
  }

  function DigitValue(c: char): nat
    requires IsDigit(c)
  {
    c as int - '0' as int
  }

  predicate AllDigits(s: string) {
    forall i :: 0 <= i < |s| ==> IsDigit(s[i])
  }

  /** The number a string of decimal digits denotes (leading zeros allowed). */
  function DecimalValue(ds: string): nat
    requires AllDigits(ds)
    decreases |ds|
  {
    if ds == [] then 0 else DecimalValue(ds[..|ds| - 1]) * 10 + DigitValue(ds[|ds| - 1])
  }

  /** Digits with single underscores between them, as Python's `int()`
      accepts them ("1_000"). */
  predicate IsDigitGroups(t: string) {
    && t != []
    && IsDigit(t[0]) && IsDigit(t[|t| - 1])
    && (forall i :: 0 <= i < |t| ==> IsDigit(t[i]) || t[i] == '_')
    && NoDoubleUnderscore(t)
  }

  predicate NoDoubleUnderscore(t: string)
    decreases |t|
  {
    |t| < 2 || (!(t[0] == '_' && t[1] == '_') && NoDoubleUnderscore(t[1..]))
  }

  /** The digits of `t` with the underscores taken out. */
  function DropUnderscores(t: string): (ds: string)
    requires forall i :: 0 <= i < |t| ==> IsDigit(t[i]) || t[i] == '_'
    ensures AllDigits(ds)
    decreases |t|
  {
    if t == [] then []
    else if t[0] == '_' then DropUnderscores(t[1..])
    else [t[0]] + DropUnderscores(t[1..])
  }

  /** Python's `int(s)` for a `str` in base 10: surrounding whitespace is
      ignored, an optional sign may lead, and the rest must be digit groups;
      anything else raises `ValueError`, modelled as `None`. */
  function IntOf(s: string): Option<int> {
    SignedValue(Strip(s))
  }

  /** `int()` of a string without surrounding whitespace. */
  function SignedValue(t: string): Option<int> {
    if t != [] && t[0] == '-' then
      match UnsignedValue(t[1..])
      case None => None
      case Some(v) => Some(-v)
    else if t != [] && t[0] == '+' then UnsignedValue(t[1..])
    else UnsignedValue(t)
  }

  /** `int()` of the unsigned part: digit groups, or nothing. */
  function UnsignedValue(t: string): Option<int> {
    if IsDigitGroups(t) then Some(DecimalValue(DropUnderscores(t))) else None
  }

  /** A word that does not begin with a digit or a sign is not an integer
      numeral: `int("no")` raises. */
  lemma IntOfWord(w: string)
    requires w != [] && !IsSpace(w[0]) && !IsSpace(w[|w| - 1])
    requires !IsDigit(w[0]) && w[0] != '-' && w[0] != '+'
    ensures IntOf(w) == None
  {
    StripUnchanged(w);
    SignedValueNoDigit(w);
  }

  lemma SignedValueNoDigit(t: string)
    requires t != [] && !IsDigit(t[0]) && t[0] != '-' && t[0] != '+'
    ensures SignedValue(t) == None
  {
    assert !IsDigitGroups(t);
  }

  /** A plain run of digits converts to the number it denotes. */
  lemma IntOfDigits(ds: string)
    requires ds != [] && AllDigits(ds)
    ensures IntOf(ds) == Some(DecimalValue(ds))
  {
    StripUnchanged(ds);
    SignedValueDigits(ds);
  }

  lemma SignedValueDigits(ds: string)
    requires ds != [] && AllDigits(ds)
    ensures SignedValue(ds) == Some(DecimalValue(ds))
  {
    assert IsDigit(ds[0]);
    UnsignedValueDigits(ds);
  }

  lemma UnsignedValueDigits(ds: string)
    requires ds != [] && AllDigits(ds)
    ensures UnsignedValue(ds) == Some(DecimalValue(ds))
  {
    DigitsNoDoubleUnderscore(ds);
    DropUnderscoresNone(ds);
  }

  lemma {:induction false} DigitsNoDoubleUnderscore(ds: string)
    requires AllDigits(ds)
    ensures NoDoubleUnderscore(ds)
    decreases |ds|
  {
    if |ds| >= 2 {
      DigitsNoDoubleUnderscore(ds[1..]);
    }
  }

  lemma {:induction false} DropUnderscoresNone(ds: string)
    requires AllDigits(ds)
    ensures DropUnderscores(ds) == ds
    decreases |ds|
  {
    if ds != [] {
      DropUnderscoresNone(ds[1..]);
    }
  }

  /** The decimal numeral of `n`, without leading zeros. */
  function ToDecimal(n: nat): (ds: string)
    ensures ds != [] && AllDigits(ds)
    decreases n
  {
    if n < 10 then ['0' + n as char] else ToDecimal(n / 10) + ['0' + (n % 10) as char]
  }

  /** `int()` reads back every numeral `ToDecimal` writes. */
  lemma IntOfToDecimal(n: nat)
    ensures IntOf(ToDecimal(n)) == Some(n)
  {
    DecimalValueToDecimal(n);
    IntOfDigits(ToDecimal(n));
  }

  lemma {:induction false} DecimalValueToDecimal(n: nat)
    ensures DecimalValue(ToDecimal(n)) == n
    decreases n
  {
    var ds := ToDecimal(n);
    if n >= 10 {
      DecimalValueToDecimal(n / 10);
      assert ds[..|ds| - 1] == ToDecimal(n / 10);
      assert DigitValue(ds[|ds| - 1]) == n % 10;
    }
  }
}
