/** The Python string builtins the application relies on:
    str.strip() without arguments, int() applied to a string, and str() of an
    integer (what the csv writer puts in a cell for an int). */
module Text {
  import opened Wrappers

  /** The characters for which Python's str.isspace() holds: the ones
      str.strip() removes. */
  const Whitespace: set<char> := {
    '\t', '\n', '\U{0B}', '\U{0C}', '\r', '\U{1C}', '\U{1D}', '\U{1E}', '\U{1F}', ' ',
    '\U{85}', '\U{A0}', '\U{1680}',
    '\U{2000}', '\U{2001}', '\U{2002}', '\U{2003}', '\U{2004}', '\U{2005}',
    '\U{2006}', '\U{2007}', '\U{2008}', '\U{2009}', '\U{200A}',
    '\U{2028}', '\U{2029}', '\U{202F}', '\U{205F}', '\U{3000}'
  }

  /** The characters int() ignores around a number. CPython turns every
      non-ASCII str.isspace() character into a space and then skips only the
      ASCII whitespace \t \n \v \f \r and space, so the four ASCII separators
      U+001C..U+001F, which strip() removes, make int() fail. */
  const IntSpace: set<char> := Whitespace - {'\U{1C}', '\U{1D}', '\U{1E}', '\U{1F}'}

  /** Neither starts nor ends with a character of ws. */
  ghost predicate Unpadded(ws: set<char>, s: string) {
    s == [] || (s[0] !in ws && s[|s| - 1] !in ws)
  }

  /** r is the slice of s that starts at index i, everything in s before and
      after that slice is in ws, and r has no character of ws at either end. */
  ghost predicate StripAt(ws: set<char>, s: string, i: nat, r: string) {
    && i + |r| <= |s|
    && s[i..i + |r|] == r
    && (forall k :: 0 <= k < i ==> s[k] in ws)
    && (forall k :: i + |r| <= k < |s| ==> s[k] in ws)
    && Unpadded(ws, r)
  }

  /** r is what is left of s once the runs of ws at both ends are cut off. */
  ghost predicate IsStripOf(ws: set<char>, s: string, r: string) {
    exists i: nat :: StripAt(ws, s, i, r)
  }

  /** Drops the leading characters of ws; str.lstrip() when ws is Whitespace. */
  function TrimStart(ws: set<char>, s: string): string
    decreases |s|
  {
    if |s| > 0 && s[0] in ws then TrimStart(ws, s[1..]) else s
  }

  /** Drops the trailing characters of ws; str.rstrip() when ws is Whitespace. */
  function TrimEnd(ws: set<char>, s: string): string
    decreases |s|
  {
    if |s| > 0 && s[|s| - 1] in ws then TrimEnd(ws, s[..|s| - 1]) else s
  }

  /** Drops the characters of ws at both ends. */
  function TrimBy(ws: set<char>, s: string): string {
    TrimEnd(ws, TrimStart(ws, s))
  }

  /** str.strip() with no argument. */
  function Trim(s: string): string {
    TrimBy(Whitespace, s)
  }

  /** The left cut leaves a suffix of s, removes only characters of ws, and
      stops at the first character that is not in ws. */
  lemma {:induction false} TrimStartIsSuffix(ws: set<char>, s: string)
    ensures |TrimStart(ws, s)| <= |s| && TrimStart(ws, s) == s[|s| - |TrimStart(ws, s)|..]
    ensures forall k :: 0 <= k < |s| - |TrimStart(ws, s)| ==> s[k] in ws
    ensures TrimStart(ws, s) == [] || TrimStart(ws, s)[0] !in ws
    decreases |s|
  {
    if |s| > 0 && s[0] in ws {
      TrimStartIsSuffix(ws, s[1..]);
    }
  }

  /** The right cut leaves a prefix of s, removes only characters of ws, and
      stops at the last character that is not in ws. */
  lemma {:induction false} TrimEndIsPrefix(ws: set<char>, s: string)
    ensures |TrimEnd(ws, s)| <= |s| && TrimEnd(ws, s) == s[..|TrimEnd(ws, s)|]
    ensures forall k :: |TrimEnd(ws, s)| <= k < |s| ==> s[k] in ws
    ensures TrimEnd(ws, s) == [] || TrimEnd(ws, s)[|TrimEnd(ws, s)| - 1] !in ws
    decreases |s|
  {
    if |s| > 0 && s[|s| - 1] in ws {
      TrimEndIsPrefix(ws, s[..|s| - 1]);
    }
  }

  /** Trimming cuts exactly the runs of ws at both ends. */
  lemma TrimIsStrip(ws: set<char>, s: string)
    ensures IsStripOf(ws, s, TrimBy(ws, s))
  {
    var l := TrimStart(ws, s);
    TrimStartIsSuffix(ws, s);
    TrimEndIsPrefix(ws, l);
    var i := |s| - |l|;
    SliceOfSuffixIsStrip(ws, s, i, TrimEnd(ws, l));
  }

  /** A prefix, ending outside ws, of the part of s after a run of ws, and
      followed by characters of ws only, is a strip of s. */
  lemma SliceOfSuffixIsStrip(ws: set<char>, s: string, i: nat, r: string)
    requires i <= |s|
    requires forall k :: 0 <= k < i ==> s[k] in ws
    requires |r| <= |s| - i && s[i..][..|r|] == r
    requires forall k :: |r| <= k < |s| - i ==> s[i..][k] in ws
    requires s[i..] == [] || s[i..][0] !in ws
    requires r == [] || r[|r| - 1] !in ws
    ensures StripAt(ws, s, i, r)
  {
    var l := s[i..];
    assert s[i..i + |r|] == r;
    forall k | i + |r| <= k < |s|
      ensures s[k] in ws
    {
      assert s[k] == l[k - i];
    }
    if r != [] {
      assert r[0] == l[0];
    }
  }

  /** Two strips of the same string that start at the given indices coincide. */
  lemma StripAtUnique(ws: set<char>, s: string, i1: nat, r1: string, i2: nat, r2: string)
    requires StripAt(ws, s, i1, r1) && StripAt(ws, s, i2, r2)
    ensures r1 == r2
  {
    if r1 != [] {
      assert s[i1] == r1[0] && s[i1 + |r1| - 1] == r1[|r1| - 1];
    }
    if r2 != [] {
      assert s[i2] == r2[0] && s[i2 + |r2| - 1] == r2[|r2| - 1];
    }
    if r1 != [] && r2 != [] {
      assert i1 == i2 && i1 + |r1| == i2 + |r2|;
    }
  }

  /** The strip of a string is unique, so IsStripOf specifies TrimBy completely. */
  lemma StripIsUnique(ws: set<char>, s: string, r1: string, r2: string)
    requires IsStripOf(ws, s, r1) && IsStripOf(ws, s, r2)
    ensures r1 == r2
  {
    var i1: nat :| StripAt(ws, s, i1, r1);
    var i2: nat :| StripAt(ws, s, i2, r2);
    StripAtUnique(ws, s, i1, r1, i2, r2);
  }

  /** A string without characters of ws at its ends is left as it is. */
  lemma TrimUnpadded(ws: set<char>, s: string)
    requires Unpadded(ws, s)
    ensures TrimBy(ws, s) == s
  {
    assert StripAt(ws, s, 0, s);
    TrimIsStrip(ws, s);
    StripIsUnique(ws, s, TrimBy(ws, s), s);
  }

  /** Trimming is idempotent; strip() in particular. */
  lemma TrimIdempotent(ws: set<char>, s: string)
    ensures TrimBy(ws, TrimBy(ws, s)) == TrimBy(ws, s)
  {
    TrimIsStrip(ws, s);
    TrimUnpadded(ws, TrimBy(ws, s));
  }

  predicate IsDigit(c: char) {
    '0' <= c <= '9'
  }

  function DigitOf(c: char): nat
    requires IsDigit(c)
  {
    (c - '0') as nat
  }

  function DigitChar(d: nat): (c: char)
    requires d < 10
    ensures IsDigit(c) && DigitOf(c) == d
  {
    ('0' as int + d) as char
  }

  /** The digits of a Python integer literal in base 10: ASCII digits, with
      single underscores allowed between two digits. */
  predicate IsDigitRun(d: string) {
    && |d| > 0
    && IsDigit(d[0]) && IsDigit(d[|d| - 1])
    && (forall k :: 0 <= k < |d| ==> IsDigit(d[k]) || d[k] == '_')
    && (forall j, k :: 0 <= j < |d| && 0 <= k < |d| && k == j + 1 ==> d[j] == '_' ==> d[k] != '_')
  }

  /** The value of a run of digits read left to right; underscores are skipped. */
  function DigitsValue(d: string): nat
    decreases |d|
  {
    if |d| == 0 then 0
    else
      var last := d[|d| - 1];
      if IsDigit(last) then DigitsValue(d[..|d| - 1]) * 10 + DigitOf(last)
      else DigitsValue(d[..|d| - 1])
  }

  /** int(s) for a string s: None where Python raises ValueError.
      Surrounding IntSpace characters are ignored; a single '+' or '-' may
      precede the digits. */
  function ParseInt(s: string): Option<int> {
    ParseStripped(TrimBy(IntSpace, s))
  }

  /** int() once the surrounding IntSpace characters are gone. */
  function ParseStripped(t: string): Option<int> {
    if |t| > 0 && (t[0] == '-' || t[0] == '+') then
      var d := t[1..];
      if IsDigitRun(d) then (var v: int := DigitsValue(d); Some(if t[0] == '-' then -v else v))
      else None
    else if IsDigitRun(t) then Some(DigitsValue(t))
    else None
  }

  /** str(n) for a natural number: its decimal digits, no leading zeros. */
  function ShowNat(n: nat): string
    decreases n
  {
    if n < 10 then [DigitChar(n)] else ShowNat(n / 10) + [DigitChar(n % 10)]
  }

  /** str(n) for an integer. */
  function ShowInt(n: int): string {
    if n < 0 then "-" + ShowNat(-n) else ShowNat(n)
  }

  lemma {:induction false} ShowNatDigits(n: nat)
    ensures |ShowNat(n)| > 0
    ensures forall k :: 0 <= k < |ShowNat(n)| ==> IsDigit(ShowNat(n)[k])
    ensures DigitsValue(ShowNat(n)) == n
    decreases n
  {
    if n >= 10 {
      ShowNatDigits(n / 10);
      var s := ShowNat(n);
      assert s[..|s| - 1] == ShowNat(n / 10);
    }
  }

  /** int(str(n)) == n. */
  lemma ParseShowRoundTrip(n: int)
    ensures ParseInt(ShowInt(n)) == Some(n)
  {
    ShowIntUnpadded(n);
    ShowIntParses(n);
    TrimUnpadded(IntSpace, ShowInt(n));
  }

  /** str(n) has nothing at its ends that strip() or int() would skip. */
  lemma ShowIntUnpadded(n: int)
    ensures Unpadded(Whitespace, ShowInt(n)) && Unpadded(IntSpace, ShowInt(n))
  {
    var m: nat := if n < 0 then -n else n;
    var d := ShowNat(m);
    ShowNatDigits(m);
    DigitIsNotSpace(d[|d| - 1]);
    if n >= 0 {
      DigitIsNotSpace(d[0]);
    } else {
      assert ShowInt(n)[|ShowInt(n)| - 1] == d[|d| - 1];
    }
  }

  /** Without surrounding whitespace, str(n) parses back to n. */
  lemma ShowIntParses(n: int)
    ensures ParseStripped(ShowInt(n)) == Some(n)
  {
    var m: nat := if n < 0 then -n else n;
    var d := ShowNat(m);
    ShowNatIsDigitRun(m);
    if n < 0 {
      assert ShowInt(n)[1..] == d;
    }
  }

  lemma ShowNatIsDigitRun(m: nat)
    ensures IsDigitRun(ShowNat(m)) && DigitsValue(ShowNat(m)) == m
  {
    ShowNatDigits(m);
  }

  lemma DigitIsNotSpace(c: char)
    requires IsDigit(c)
    ensures c !in Whitespace && c !in IntSpace
  {
  }

  /** Whatever int() skips, strip() removes too. */
  lemma IntSpaceIsWhitespace(c: char)
    requires c in IntSpace
    ensures c in Whitespace
  {
  }

  /** Whenever int(s) succeeds, int(s.strip()) gives the same number: strip()
      only removes characters around the number that int() would skip or that
      int() would reject. */
  lemma ParseIgnoresStrip(s: string)
    ensures ParseInt(s).Some? ==> ParseInt(Trim(s)) == ParseInt(s)
  {
    if ParseInt(s).Some? {
      var t := TrimBy(IntSpace, s);
      TrimIsStrip(IntSpace, s);
      var i: nat :| StripAt(IntSpace, s, i, t);
      ParsedIsUnpadded(t);
      forall k | 0 <= k < i || i + |t| <= k < |s|
        ensures s[k] in Whitespace
      {
        IntSpaceIsWhitespace(s[k]);
      }
      assert StripAt(Whitespace, s, i, t);
      TrimIsStrip(Whitespace, s);
      StripIsUnique(Whitespace, s, Trim(s), t);
      TrimUnpadded(IntSpace, t);
    }
  }

  /** Text that parses once int()'s spaces are gone begins with a sign or a
      digit and ends with a digit, so neither end is whitespace. */
  lemma ParsedIsUnpadded(t: string)
    requires ParseStripped(t).Some?
    ensures Unpadded(Whitespace, t) && Unpadded(IntSpace, t)
  {
    DigitIsNotSpace(t[|t| - 1]);
  }

  /** The converse fails: a leading U+001C is cut by strip() but rejected by
      int(), which is why the master list strips each cell before int(). */
  lemma StripCanRescueParse()
    ensures ParseInt("\U{1C}5") == None
    ensures ParseInt(Trim("\U{1C}5")) == Some(5)
  {
    assert "\U{1C}5"[1..] == "5";
    assert TrimStart(Whitespace, "\U{1C}5") == "5";
    assert TrimStart(IntSpace, "\U{1C}5") == "\U{1C}5";
  }

  /** A string without any digit, the empty cell among them, never parses. */
  lemma ParseNeedsADigit(s: string)
    requires forall k :: 0 <= k < |s| ==> !IsDigit(s[k])
    ensures ParseInt(s) == None
  {
    var t := TrimBy(IntSpace, s);
    TrimIsStrip(IntSpace, s);
    var i: nat :| StripAt(IntSpace, s, i, t);
    if |t| > 0 {
      assert t[0] == s[i];
    }
    if |t| > 1 {
      assert t[1] == s[i + 1];
    }
  }
}
