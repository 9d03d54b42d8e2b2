/** The pieces of .NET string and integer behaviour that the importer relies on:
    `String.Split` on one separator, `String.Replace(old, "")`, `int.TryParse`,
    decimal formatting of an `int`, and unchecked 32-bit addition. */
module Text {
  import opened Wrappers

  const Int32Min: int := -0x8000_0000
  const Int32Max: int := 0x7FFF_FFFF

  predicate InInt32(n: int) {
    Int32Min <= n <= Int32Max
  }

  /** C#'s unchecked `a + b` on two `int`s: the mathematical sum, wrapped
      into the 32-bit two's-complement range. */
  function AddInt32(a: int, b: int): (r: int)
    requires InInt32(a) && InInt32(b)
    ensures InInt32(r)
    ensures InInt32(a + b) ==> r == a + b
    ensures (r - (a + b)) % 0x1_0000_0000 == 0
  {
    var sum := a + b;
    if sum > Int32Max then sum - 0x1_0000_0000
    else if sum < Int32Min then sum + 0x1_0000_0000
    else sum
  }

  // ---------------------------------------------------------------------------
  // Decimal digits

  predicate IsDigit(c: char) {
    '0' <= c <= '9'
  }

  predicate AllDigits(s: string) {
    forall i :: 0 <= i < |s| ==> IsDigit(s[i])
  }

  function DigitValue(c: char): nat
    requires IsDigit(c)
  {
    (c as int) - ('0' as int)
  }

  function DigitChar(d: nat): (c: char)
    requires d < 10
    ensures IsDigit(c) && DigitValue(c) == d
  {
    (('0' as int) + d) as char
  }

  /** The value of a string of decimal digits, most significant first. */
  function DigitsValue(s: string): nat
    requires AllDigits(s)
    decreases |s|
  {
    if s == [] then 0 else DigitsValue(s[..|s| - 1]) * 10 + DigitValue(s[|s| - 1])
  }

  /** Decimal text of a natural number, without leading zeros. */
  function NatToString(n: nat): (s: string)
    ensures |s| > 0 && AllDigits(s)
    ensures s[0] == '0' ==> n == 0
    decreases n
  {
    if n < 10 then [DigitChar(n)] else NatToString(n / 10) + [DigitChar(n % 10)]
  }

  /** `int.ToString()` under the invariant culture: an optional '-' and the
      decimal digits of the magnitude. */
  function IntToString(n: int): (s: string)
    ensures |s| > 0
    ensures forall i :: 0 <= i < |s| ==> IsDigit(s[i]) || (i == 0 && s[i] == '-')
    ensures s[0] == '-' <==> n < 0
  {
    if n < 0 then "-" + NatToString(-n) else NatToString(n)
  }

  lemma {:induction false} DigitsValueOfNatToString(n: nat)
    ensures DigitsValue(NatToString(n)) == n
  {
    if n >= 10 {
      DigitsValueOfNatToString(n / 10);
      var s := NatToString(n);
      assert s[..|s| - 1] == NatToString(n / 10);
    }
  }

  // ---------------------------------------------------------------------------
  // int.TryParse with NumberStyles.Integer

  /** White space that `NumberStyles.AllowLeadingWhite` and
      `AllowTrailingWhite` accept: U+0009 to U+000D and U+0020. */
  predicate IsWhite(c: char) {
    c == ' ' || '\t' <= c <= '\r'
  }

  function TrimStart(s: string): (t: string)
    ensures |t| <= |s|
    ensures t == [] || !IsWhite(t[0])
    ensures s == [] || !IsWhite(s[0]) ==> t == s
    ensures forall i :: 0 <= i < |s| && !IsWhite(s[i]) ==> s[i] in t
    decreases |s|
  {
    if s != [] && IsWhite(s[0]) then
      var t := TrimStart(s[1..]);
      assert forall i :: 1 <= i < |s| ==> s[i] == s[1..][i - 1];
      t
    else s
  }

  function TrimEnd(s: string): (t: string)
    ensures |t| <= |s|
    ensures t == [] || !IsWhite(t[|t| - 1])
    ensures t == s[..|t|]
    ensures s == [] || !IsWhite(s[|s| - 1]) ==> t == s
    ensures forall i :: 0 <= i < |s| && !IsWhite(s[i]) ==> s[i] in t
    decreases |s|
  {
    if s != [] && IsWhite(s[|s| - 1]) then
      var t := TrimEnd(s[..|s| - 1]);
      assert forall i :: 0 <= i < |s| - 1 ==> s[i] == s[..|s| - 1][i];
      t
    else s
  }

  /** Leading and trailing white space removed. */
  function TrimWhite(s: string): (t: string)
    ensures t == [] || (!IsWhite(t[0]) && !IsWhite(t[|t| - 1]))
    ensures s == [] || (!IsWhite(s[0]) && !IsWhite(s[|s| - 1])) ==> t == s
    ensures forall i :: 0 <= i < |s| && !IsWhite(s[i]) ==> s[i] in t
  {
    var u := TrimStart(s);
    var t := TrimEnd(u);
    forall i | 0 <= i < |s| && !IsWhite(s[i]) ensures s[i] in t {
      var j :| 0 <= j < |u| && u[j] == s[i];
    }
    assert t != [] ==> t[0] == u[0];
    t
  }

  /** Trimming keeps a contiguous slice of the text and drops only white
      space on either side of it. */
  lemma TrimWhiteIsSlice(s: string)
    ensures exists i, j :: 0 <= i <= j <= |s| && TrimWhite(s) == s[i..j]
                        && (forall k :: 0 <= k < i ==> IsWhite(s[k]))
                        && (forall k :: j <= k < |s| ==> IsWhite(s[k]))
  {
    var u := TrimStart(s);
    var t := TrimWhite(s);
    var i := |s| - |u|;
    TrimStartDropsWhitePrefix(s);
    TrimEndDropsWhiteSuffix(u);
    assert t == TrimEnd(u);
    assert t == s[i..i + |t|] by {
      assert u == s[i..];
      assert t == u[..|t|];
    }
    forall k | i + |t| <= k < |s| ensures IsWhite(s[k]) {
      assert s[k] == u[k - i];
    }
  }

  /** `TrimStart` keeps a suffix of `s` and drops only white space. */
  lemma {:induction false} TrimStartDropsWhitePrefix(s: string)
    ensures TrimStart(s) == s[|s| - |TrimStart(s)|..]
    ensures forall k :: 0 <= k < |s| - |TrimStart(s)| ==> IsWhite(s[k])
    decreases |s|
  {
    if s != [] && IsWhite(s[0]) {
      TrimStartDropsWhitePrefix(s[1..]);
      forall k | 1 <= k < |s| - |TrimStart(s)| ensures IsWhite(s[k]) {
        assert s[k] == s[1..][k - 1];
      }
    }
  }

  /** `TrimEnd` drops only white space. */
  lemma {:induction false} TrimEndDropsWhiteSuffix(s: string)
    ensures forall k :: |TrimEnd(s)| <= k < |s| ==> IsWhite(s[k])
    decreases |s|
  {
    if s != [] && IsWhite(s[|s| - 1]) {
      TrimEndDropsWhiteSuffix(s[..|s| - 1]);
      forall k | |TrimEnd(s)| <= k < |s| - 1 ensures IsWhite(s[k]) {
        assert s[k] == s[..|s| - 1][k];
      }
    }
  }

  /** `int.TryParse(s, out v)`: surrounding white space, then an optional
      sign, then one or more decimal digits whose value fits in an `int`.
      `None` stands for a `false` return, after which `v` is 0. */
  function TryParseInt32(s: string): (r: Option<int>)
    ensures r.Some? ==> InInt32(r.value)
  {
    ParseSignedDigits(TrimWhite(s))
  }

  /** The part of `TryParseInt32` after the white space is trimmed. */
  function ParseSignedDigits(t: string): (r: Option<int>)
    ensures r.Some? ==> InInt32(r.value)
  {
    var signed := |t| > 0 && (t[0] == '-' || t[0] == '+');
    var body := if signed then t[1..] else t;
    if body == [] || !AllDigits(body) then None
    else
      var magnitude: int := DigitsValue(body);
      var v := if signed && t[0] == '-' then -magnitude else magnitude;
      if InInt32(v) then Some(v) else None
  }

  /** Formatting then parsing gives back every `int`. */
  lemma ParseFormatRoundTrip(n: int)
    requires InInt32(n)
    ensures TryParseInt32(IntToString(n)) == Some(n)
  {
    var s := IntToString(n);
    NumberTextIsTrimmed(n);
    var m: nat := if n < 0 then -n else n;
    var digits := NatToString(m);
    DigitsValueOfNatToString(m);
    if n < 0 {
      assert s == "-" + digits;
      assert s[1..] == digits;
    } else {
      assert s == digits;
      assert IsDigit(s[0]);
    }
  }

  /** Formatted numbers carry no white space to trim. */
  lemma NumberTextIsTrimmed(n: int)
    ensures TrimWhite(IntToString(n)) == IntToString(n)
  {
    var s := IntToString(n);
    assert !IsWhite(s[0]);
    assert IsDigit(s[|s| - 1]) || s[|s| - 1] == '-';
  }

  /** A character that is neither a digit, a sign nor white space makes the
      parse fail. */
  lemma ParseRejectsNonNumeric(s: string, i: nat)
    requires i < |s| && !IsDigit(s[i]) && !IsWhite(s[i]) && s[i] != '-' && s[i] != '+'
    ensures TryParseInt32(s) == None
  {
    // s[i] survives trimming, and no character of a parsable text is like it
    assert s[i] in TrimWhite(s);
  }

  // ---------------------------------------------------------------------------
  // String.Split(new[] { sep }, StringSplitOptions.None) and its inverse

  /** The pieces of `s` between non-overlapping occurrences of `sep`, found
      from left to right; empty pieces are kept. */
  function Split(s: string, sep: string): (parts: seq<string>)
    requires |sep| > 0
    ensures |parts| > 0
    decreases |s|
  {
    if |s| < |sep| then [s]
    else if s[..|sep|] == sep then [""] + Split(s[|sep|..], sep)
    else
      var rest := Split(s[1..], sep);
      [[s[0]] + rest[0]] + rest[1..]
  }

  /** `String.Join(sep, parts)`. */
  function Join(parts: seq<string>, sep: string): string
    requires |parts| > 0
    decreases |parts|
  {
    if |parts| == 1 then parts[0] else parts[0] + sep + Join(parts[1..], sep)
  }

  /** Splitting loses nothing: joining the pieces restores the text. */
  lemma {:induction false} SplitThenJoin(s: string, sep: string)
    requires |sep| > 0
    ensures Join(Split(s, sep), sep) == s
    decreases |s|
  {
    if |s| >= |sep| {
      if s[..|sep|] == sep {
        SplitThenJoin(s[|sep|..], sep);
        SplitThenJoinAtSeparator(s, sep);
      } else {
        SplitThenJoin(s[1..], sep);
        SplitThenJoinAfterFirst(s, sep);
      }
    }
  }

  /** The step of `SplitThenJoin` for a text that starts with the separator. */
  lemma SplitThenJoinAtSeparator(s: string, sep: string)
    requires |sep| > 0 && |s| >= |sep| && s[..|sep|] == sep
    requires Join(Split(s[|sep|..], sep), sep) == s[|sep|..]
    ensures Join(Split(s, sep), sep) == s
  {
    SplitAtLeadingSeparator(s, sep);
    JoinAfterEmpty(Split(s[|sep|..], sep), sep);
    SeparatorThenRest(s, sep);
  }

  /** A leading separator yields an empty first piece. */
  lemma SplitAtLeadingSeparator(s: string, sep: string)
    requires |sep| > 0 && |s| >= |sep| && s[..|sep|] == sep
    ensures Split(s, sep) == [""] + Split(s[|sep|..], sep)
  {
  }

  lemma SeparatorThenRest(s: string, sep: string)
    requires |s| >= |sep| && s[..|sep|] == sep
    ensures sep + s[|sep|..] == s
  {
    assert s == s[..|sep|] + s[|sep|..];
  }

  /** An empty first piece contributes only the separator. */
  lemma JoinAfterEmpty(parts: seq<string>, sep: string)
    requires |parts| > 0
    ensures Join([""] + parts, sep) == sep + Join(parts, sep)
  {
    var all := [""] + parts;
    assert all[1..] == parts;
    assert all[0] + sep == sep;
  }

  /** The step of `SplitThenJoin` for a text that does not start with the
      separator. */
  lemma SplitThenJoinAfterFirst(s: string, sep: string)
    requires |sep| > 0 && |s| >= |sep| && s[..|sep|] != sep
    requires Join(Split(s[1..], sep), sep) == s[1..]
    ensures Join(Split(s, sep), sep) == s
  {
    var rest := Split(s[1..], sep);
    assert Split(s, sep) == [[s[0]] + rest[0]] + rest[1..];
    JoinExtendsFirst(s[0], rest, sep);
    assert s == [s[0]] + s[1..];
  }

  /** Putting a character in front of the first piece puts it in front of
      the joined text. */
  lemma JoinExtendsFirst(c: char, parts: seq<string>, sep: string)
    requires |parts| > 0 && |sep| > 0
    ensures Join([[c] + parts[0]] + parts[1..], sep) == [c] + Join(parts, sep)
  {
    var extended := [[c] + parts[0]] + parts[1..];
    if |parts| > 1 {
      assert extended[1..] == parts[1..];
      var tail := Join(parts[1..], sep);
      assert ([c] + parts[0]) + sep + tail == [c] + (parts[0] + sep + tail);
    }
  }

  lemma {:induction false} SplitWithoutSeparator(p: string, sep: string)
    requires |sep| > 0 && sep[0] !in p
    ensures Split(p, sep) == [p]
    decreases |p|
  {
    if |p| >= |sep| {
      assert p[0] in p;
      assert p[1..] == p[1..];
      SplitWithoutSeparator(p[1..], sep);
      assert [p[0]] + p[1..] == p;
    }
  }

  lemma {:induction false} SplitAtFirstSeparator(p: string, rest: string, sep: string)
    requires |sep| > 0 && sep[0] !in p
    ensures Split(p + sep + rest, sep) == [p] + Split(rest, sep)
    decreases |p|
  {
    var s := p + sep + rest;
    if p == [] {
      assert s[..|sep|] == sep && s[|sep|..] == rest;
    } else {
      assert p[0] in p;
      assert s[0] == p[0] && s[..|sep|] != sep;
      forall c | c in p[1..] ensures c in p { }
      SplitAtFirstSeparator(p[1..], rest, sep);
      assert s[1..] == p[1..] + sep + rest;
      assert [p[0]] + p[1..] == p;
    }
  }

  /** Joining pieces that do not contain the separator's first character and
      splitting again gives back the same pieces. */
  lemma {:induction false} JoinThenSplit(parts: seq<string>, sep: string)
    requires |parts| > 0 && |sep| > 0
    requires forall i :: 0 <= i < |parts| ==> sep[0] !in parts[i]
    ensures Split(Join(parts, sep), sep) == parts
    decreases |parts|
  {
    if |parts| == 1 {
      SplitWithoutSeparator(parts[0], sep);
    } else {
      JoinThenSplit(parts[1..], sep);
      SplitAtFirstSeparator(parts[0], Join(parts[1..], sep), sep);
      assert [parts[0]] + parts[1..] == parts;
    }
  }

  // ---------------------------------------------------------------------------
  // String.Replace(pat, "")

  /** `s` with every non-overlapping occurrence of `pat`, found from left to
      right, removed; the text that the removals bring together is not
      searched again. */
  function RemoveAll(s: string, pat: string): (r: string)
    requires |pat| > 0
    ensures |r| <= |s|
    decreases |s|
  {
    if |s| < |pat| then s
    else if s[..|pat|] == pat then RemoveAll(s[|pat|..], pat)
    else [s[0]] + RemoveAll(s[1..], pat)
  }

  /** `pat` occurs somewhere in `s`. */
  ghost predicate Occurs(pat: string, s: string) {
    exists i :: 0 <= i && OccursAt(pat, s, i)
  }

  predicate OccursAt(pat: string, s: string, i: nat) {
    i + |pat| <= |s| && s[i..i + |pat|] == pat
  }

  /** Removing a pattern that does not occur changes nothing. */
  lemma {:induction false} RemoveAllAbsent(s: string, pat: string)
    requires |pat| > 0 && !Occurs(pat, s)
    ensures RemoveAll(s, pat) == s
    decreases |s|
  {
    if |s| >= |pat| {
      assert s[0..0 + |pat|] == s[..|pat|];
      assert !OccursAt(pat, s, 0);
      if Occurs(pat, s[1..]) {
        var i :| 0 <= i && OccursAt(pat, s[1..], i);
        assert s[i + 1..i + 1 + |pat|] == s[1..][i..i + |pat|];
        assert OccursAt(pat, s, i + 1);
        assert false;
      }
      RemoveAllAbsent(s[1..], pat);
      assert [s[0]] + s[1..] == s;
    }
  }

  /** A leading occurrence is removed. */
  lemma RemoveAllLeading(pat: string, rest: string)
    requires |pat| > 0
    ensures RemoveAll(pat + rest, pat) == RemoveAll(rest, pat)
  {
    var s := pat + rest;
    assert s[..|pat|] == pat && s[|pat|..] == rest;
  }

  /** Text without the pattern's first character is kept as it is, and the
      removal goes on after it. */
  lemma {:induction false} RemoveAllKeepsPrefix(a: string, b: string, pat: string)
    requires |pat| > 0 && pat[0] !in a
    ensures RemoveAll(a + b, pat) == a + RemoveAll(b, pat)
    decreases |a|
  {
    if a != [] {
      var s := a + b;
      assert a[0] in a;
      assert s[0] == a[0];
      forall c | c in a[1..] ensures c in a { }
      RemoveAllKeepsPrefix(a[1..], b, pat);
      assert s[1..] == a[1..] + b;
      if |s| < |pat| {
        assert |b| < |pat|;
      } else {
        assert s[..|pat|] != pat;
      }
    } else {
      assert a + b == b;
    }
  }
}
