/** The string operations the bot borrows from Python: the whitespace class
    shared by str.strip() and the regular expression class `\s`, strip(),
    substring search, lower-casing, string repetition and the zero-padded
    decimal rendering of the `03d` format spec. */
module Text {

  /** str.isspace(): the characters Python treats as whitespace, which is
      also the set `\s` matches in a str pattern and the set strip() removes. */
  predicate IsSpace(c: char) {
    c == ' ' || ('\t' <= c <= '\r') || ('\U{1C}' <= c <= '\U{1F}') ||
    c == '\U{85}' || c == '\U{A0}' || c == '\U{1680}' || ('\U{2000}' <= c <= '\U{200A}') ||
    c == '\U{2028}' || c == '\U{2029}' || c == '\U{202F}' || c == '\U{205F}' || c == '\U{3000}'
  }

  predicate AllSpace(s: string) {
    forall i :: 0 <= i < |s| ==> IsSpace(s[i])
  }

  /** Every character of `s` at an index in [lo, hi) is whitespace. */
  predicate SpaceBetween(s: string, lo: int, hi: int) {
    forall j :: lo <= j < hi && 0 <= j < |s| ==> IsSpace(s[j])
  }

  predicate NoSpace(s: string) {
    forall i :: 0 <= i < |s| ==> !IsSpace(s[i])
  }

  /** Neither the first nor the last character is whitespace. */
  predicate NoEdgeSpace(s: string) {
    s == [] || (!IsSpace(s[0]) && !IsSpace(s[|s| - 1]))
  }

  /** `r` sits at index `i` of `s` with only whitespace before and after it. */
  predicate Surrounded(s: string, r: string, i: int) {
    0 <= i && i + |r| <= |s| && r == s[i..i + |r|] && SpaceBetween(s, 0, i) && SpaceBetween(s, i + |r|, |s|)
  }

  /** The index of the first character at or after `i` that is not
      whitespace, or |s| when there is none. */
  function StartIndex(s: string, i: nat): (r: nat)
    requires i <= |s|
    ensures i <= r <= |s|
    ensures SpaceBetween(s, i, r)
    ensures r < |s| ==> !IsSpace(s[r])
    decreases |s| - i
  {
    if i < |s| && IsSpace(s[i]) then StartIndex(s, i + 1) else i
  }

  /** The index just after the last character before `j` and at or after
      `lo` that is not whitespace, or `lo` when there is none. */
  function EndIndex(s: string, lo: nat, j: nat): (r: nat)
    requires lo <= j <= |s|
    ensures lo <= r <= j
    ensures SpaceBetween(s, r, j)
    ensures r > lo ==> !IsSpace(s[r - 1])
    decreases j
  {
    if j > lo && IsSpace(s[j - 1]) then EndIndex(s, lo, j - 1) else j
  }

  /** str.strip() with no argument: the slice of `s` left once the
      whitespace at both ends is removed. What is kept starts at the first
      character that is not whitespace, has no whitespace at either end, and
      only whitespace surrounds it in `s`. */
  function Strip(s: string): (r: string)
    ensures NoEdgeSpace(r)
    ensures Surrounded(s, r, StartIndex(s, 0))
  {
    var lo := StartIndex(s, 0);
    s[lo..EndIndex(s, lo, |s|)]
  }

  /** Strip is determined by its contract: whatever text without edge
      whitespace is surrounded by whitespace only is what Strip returns. */
  lemma StripUnique(s: string, m: string, i: int)
    requires Surrounded(s, m, i) && NoEdgeSpace(m)
    ensures Strip(s) == m
  {
    var lo := StartIndex(s, 0);
    var hi := EndIndex(s, lo, |s|);
    if m != [] {
      assert s[i] == m[0] && s[i + |m| - 1] == m[|m| - 1];
    }
  }

  /** Strip removes nothing from text that has no edge whitespace, so
      stripping twice is stripping once. */
  lemma StripIdempotent(s: string)
    ensures Strip(Strip(s)) == Strip(s)
  {
    StripUnique(Strip(s), Strip(s), 0);
  }

  /** `w` occurs in `s` starting at index `i`. */
  predicate OccursAt(s: string, w: string, i: int) {
    0 <= i && i + |w| <= |s| && s[i..i + |w|] == w
  }

  /** The `in` operator on strings: `w` occurs somewhere in `s`. */
  function Contains(s: string, w: string): (r: bool)
    ensures r <==> exists i :: OccursAt(s, w, i)
  {
    SearchFrom(s, w, 0)
  }

  /** The search behind Contains, trying the positions from `i` on. */
  function SearchFrom(s: string, w: string, i: nat): (r: bool)
    requires i <= |s|
    ensures r <==> exists j :: i <= j && OccursAt(s, w, j)
    decreases |s| - i
  {
    if i + |w| > |s| then false
    else if s[i..i + |w|] == w then assert OccursAt(s, w, i); true
    else SearchFrom(s, w, i + 1)
  }

  function LowerChar(c: char): char {
    if 'A' <= c <= 'Z' then (c as int + 32) as char else c
  }

  /** str.lower() restricted to ASCII letters; every other character is
      left as it is. */
  function Lower(s: string): (r: string)
    ensures |r| == |s|
    ensures forall i :: 0 <= i < |s| ==> r[i] == LowerChar(s[i])
  {
    seq(|s|, i requires 0 <= i < |s| => LowerChar(s[i]))
  }

  /** `w` occurs in `s` at index `i` when case is ignored. */
  predicate OccursAtIgnoringCase(s: string, w: string, i: int) {
    0 <= i && i + |w| <= |s| && Lower(s[i..i + |w|]) == w
  }

  /** Searching the lower-cased text finds exactly the occurrences that
      ignore case. */
  lemma ContainsLower(s: string, w: string)
    ensures Contains(Lower(s), w) <==> exists i :: OccursAtIgnoringCase(s, w, i)
  {
    forall i ensures OccursAt(Lower(s), w, i) <==> OccursAtIgnoringCase(s, w, i) {
      if 0 <= i && i + |w| <= |s| {
        assert Lower(s)[i..i + |w|] == Lower(s[i..i + |w|]);
      }
    }
  }

  /** Python's `c * n`: `n` copies of `c`, and the empty string when `n`
      is zero or negative. */
  function Repeat(c: char, n: int): (r: string)
    ensures |r| == if n <= 0 then 0 else n
    ensures forall i :: 0 <= i < |r| ==> r[i] == c
    decreases n
  {
    if n <= 0 then [] else [c] + Repeat(c, n - 1)
  }

  predicate IsDigit(c: char) {
    '0' <= c <= '9'
  }

  predicate AllDigits(s: string) {
    forall i :: 0 <= i < |s| ==> IsDigit(s[i])
  }

  function DigitChar(d: nat): (c: char)
    requires d < 10
    ensures IsDigit(c) && c as int - '0' as int == d
  {
    ('0' as int + d) as char
  }

  /** str(n) for a natural number: its decimal digits, most significant
      first, without leading zeros. */
  function Digits(n: nat): (r: string)
    ensures |r| >= 1 && AllDigits(r)
    ensures |r| > 1 ==> r[0] != '0'
  {
    if n < 10 then [DigitChar(n)] else Digits(n / 10) + [DigitChar(n % 10)]
  }

  /** The number a string of decimal digits denotes (leading zeros allowed). */
  function ValueOf(s: string): nat
    requires AllDigits(s)
  {
    if s == [] then 0 else ValueOf(s[..|s| - 1]) * 10 + (s[|s| - 1] as int - '0' as int)
  }

  /** f"{n:0{width}d}": the digits of `n`, padded on the left with zeros to
      at least `width` characters. */
  function ZeroPad(n: nat, width: nat): (r: string)
    ensures AllDigits(r)
    ensures |r| == if |Digits(n)| < width then width else |Digits(n)|
  {
    Repeat('0', width - |Digits(n)|) + Digits(n)
  }

  lemma {:induction false} ValueOfDigits(n: nat)
    ensures ValueOf(Digits(n)) == n
  {
    if n >= 10 {
      ValueOfDigits(n / 10);
      var d := Digits(n);
      assert d[..|d| - 1] == Digits(n / 10);
    }
  }

  lemma {:induction false} ValueOfLeadingZeros(k: int, s: string)
    requires AllDigits(s)
    ensures AllDigits(Repeat('0', k) + s)
    ensures ValueOf(Repeat('0', k) + s) == ValueOf(s)
    decreases |s|
  {
    var z := Repeat('0', k);
    if s == [] {
      assert z + s == z;
      ZerosValue(k);
    } else {
      ValueOfLeadingZeros(k, s[..|s| - 1]);
      assert (z + s)[..|z + s| - 1] == z + s[..|s| - 1];
    }
  }

  lemma {:induction false} ZerosValue(k: int)
    ensures ValueOf(Repeat('0', k)) == 0
    decreases k
  {
    if k > 0 {
      var z := Repeat('0', k);
      ZerosValue(k - 1);
      assert z[..|z| - 1] == Repeat('0', k - 1);
    }
  }

  /** The zero-padded rendering reads back as the number it renders. */
  lemma ZeroPadRoundTrip(n: nat, width: nat)
    ensures ValueOf(ZeroPad(n, width)) == n
  {
    ValueOfLeadingZeros(width - |Digits(n)|, Digits(n));
    ValueOfDigits(n);
  }

  /** The longest prefix of `s` made of decimal digits. */
  function LeadingDigits(s: string): (r: string)
    ensures AllDigits(r) && |r| <= |s| && r == s[..|r|]
    ensures |r| < |s| ==> !IsDigit(s[|r|])
  {
    if s != [] && IsDigit(s[0]) then [s[0]] + LeadingDigits(s[1..]) else []
  }

  /** The characters after the last occurrence of `c`, or all of `s` when
      `c` does not occur. */
  function AfterLast(s: string, c: char): (r: string)
    ensures |r| <= |s| && r == s[|s| - |r|..]
    ensures c !in r
    ensures |r| < |s| ==> s[|s| - |r| - 1] == c
  {
    if s == [] then []
    else if s[|s| - 1] == c then []
    else
      var r := AfterLast(s[..|s| - 1], c);
      assert r + [s[|s| - 1]] == s[|s| - |r| - 1..];
      r + [s[|s| - 1]]
  }
}
