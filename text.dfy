/**
 * The string operations the triage pipeline relies on, in their ASCII form:
 * `str.lower()`, `str.strip()` / `str.strip(chars)`, `str.startswith`,
 * `str.endswith`, `str.split(sep)` and `sep.join(parts)`.
 */
module Text {

  // ---------------------------------------------------------------------------
  // Characters
  // ---------------------------------------------------------------------------

  /** The characters `str.isspace()` accepts in the ASCII range: 9-13 and 28-32. */
  const Whitespace: set<char> :=
    {'\t', '\n', '\U{0B}', '\U{0C}', '\r', '\U{1C}', '\U{1D}', '\U{1E}', '\U{1F}', ' '}

  predicate IsUpper(c: char) { 'A' <= c <= 'Z' }

  /** The regular-expression word class `\w`, restricted to ASCII. */
  predicate IsWordChar(c: char) {
    'a' <= c <= 'z' || 'A' <= c <= 'Z' || '0' <= c <= '9' || c == '_'
  }

  function LowerChar(c: char): (r: char)
    ensures !IsUpper(r)
    ensures !IsUpper(c) ==> r == c
    ensures IsUpper(c) ==> r as int == c as int + 32
  {
    if IsUpper(c) then (c as int + 32) as char else c
  }

  /** `s.lower()`: ASCII upper-case letters become lower-case, nothing else changes. */
  function Lower(s: string): (r: string)
    ensures |r| == |s|
    ensures forall i :: 0 <= i < |r| ==> !IsUpper(r[i])
    ensures forall i :: 0 <= i < |s| && !IsUpper(s[i]) ==> r[i] == s[i]
    ensures forall i :: 0 <= i < |s| && IsUpper(s[i]) ==> r[i] as int == s[i] as int + 32
  {
    seq(|s|, i requires 0 <= i < |s| => LowerChar(s[i]))
  }

  /** Lower-casing changes nothing in a string without upper-case letters. */
  lemma LowerNoop(s: string)
    requires forall i :: 0 <= i < |s| ==> !IsUpper(s[i])
    ensures Lower(s) == s
  {
  }

  // ---------------------------------------------------------------------------
  // Prefixes and suffixes
  // ---------------------------------------------------------------------------

  predicate StartsWith(s: string, prefix: string) {
    |prefix| <= |s| && s[..|prefix|] == prefix
  }

  predicate EndsWith(s: string, suffix: string) {
    |suffix| <= |s| && s[|s| - |suffix|..] == suffix
  }

  // ---------------------------------------------------------------------------
  // Stripping
  // ---------------------------------------------------------------------------

  /** How many characters at the front of `s` belong to `cs`. */
  function LeadingCount(s: string, cs: set<char>): (n: nat)
    ensures n <= |s|
    ensures forall i :: 0 <= i < n ==> s[i] in cs
    ensures n < |s| ==> s[n] !in cs
  {
    if |s| > 0 && s[0] in cs then 1 + LeadingCount(s[1..], cs) else 0
  }

  /** How many characters at the back of `s` belong to `cs`. */
  function TrailingCount(s: string, cs: set<char>): (n: nat)
    ensures n <= |s|
    ensures forall i :: |s| - n <= i < |s| ==> s[i] in cs
    ensures n < |s| ==> s[|s| - 1 - n] !in cs
  {
    if |s| > 0 && s[|s| - 1] in cs then 1 + TrailingCount(s[..|s| - 1], cs) else 0
  }

  /**
   * `r` is the slice of `s` starting at `lo`, and everything before and after
   * that slice belongs to `cs`.
   */
  predicate StripsTo(s: string, cs: set<char>, lo: nat, r: string) {
    lo + |r| <= |s| && r == s[lo..lo + |r|] &&
    (forall i :: 0 <= i < lo ==> s[i] in cs) &&
    (forall i :: lo + |r| <= i < |s| ==> s[i] in cs)
  }

  /**
   * `s.strip(chars)`: the longest slice of `s` that neither starts nor ends
   * with a character of `cs`. It is empty exactly when every character of
   * `s` is in `cs`.
   */
  function StripSet(s: string, cs: set<char>): (r: string)
    ensures |r| <= |s|
    ensures r == [] <==> forall i :: 0 <= i < |s| ==> s[i] in cs
    ensures r != [] ==> r[0] !in cs && r[|r| - 1] !in cs
    ensures r != [] ==> LeadingCount(s, cs) + |r| + TrailingCount(s, cs) == |s| &&
                        r == s[LeadingCount(s, cs)..LeadingCount(s, cs) + |r|]
  {
    var lead := LeadingCount(s, cs);
    if lead == |s| then ""
    else
      var trail := TrailingCount(s, cs);
      assert s[lead] !in cs;
      s[lead..|s| - trail]
  }

  /** `s.strip()` with the ASCII whitespace set. */
  function Strip(s: string): (r: string)
    ensures |r| <= |s|
    ensures r == [] <==> forall i :: 0 <= i < |s| ==> s[i] in Whitespace
    ensures r != [] ==> r[0] !in Whitespace && r[|r| - 1] !in Whitespace
    ensures r != [] ==> LeadingCount(s, Whitespace) + |r| + TrailingCount(s, Whitespace) == |s| &&
                        r == s[LeadingCount(s, Whitespace)..LeadingCount(s, Whitespace) + |r|]
  {
    StripSet(s, Whitespace)
  }

  /**
   * What is stripped lies only outside the result: everything before and
   * after the kept slice belongs to `cs`.
   */
  lemma StripSetSpec(s: string, cs: set<char>)
    ensures StripSet(s, cs) != [] ==> StripsTo(s, cs, LeadingCount(s, cs), StripSet(s, cs))
  {
    var r := StripSet(s, cs);
    if r != [] {
      var lead, trail := LeadingCount(s, cs), TrailingCount(s, cs);
      assert lead + |r| == |s| - trail;
      assert forall i :: lead + |r| <= i < |s| ==> s[i] in cs;
    }
  }

  /** Stripping keeps a string free of upper-case letters. */
  lemma StripSetNoUpper(s: string, cs: set<char>)
    requires forall i :: 0 <= i < |s| ==> !IsUpper(s[i])
    ensures forall i :: 0 <= i < |StripSet(s, cs)| ==> !IsUpper(StripSet(s, cs)[i])
  {
    var r := StripSet(s, cs);
    var lead := LeadingCount(s, cs);
    forall i | 0 <= i < |r| ensures !IsUpper(r[i]) {
      assert r[i] == s[lead + i];
    }
  }

  /** A string with nothing to strip at either end is its own stripped form. */
  lemma StripSetNoop(s: string, cs: set<char>)
    requires s != [] ==> s[0] !in cs && s[|s| - 1] !in cs
    ensures StripSet(s, cs) == s
  {
    if s != [] {
      assert LeadingCount(s, cs) == 0;
      assert TrailingCount(s, cs) == 0;
      assert s[0..|s| - 0] == s;
    }
  }

  /** Stripping is idempotent: a stripped string has nothing left to strip. */
  lemma StripSetIdempotent(s: string, cs: set<char>)
    ensures StripSet(StripSet(s, cs), cs) == StripSet(s, cs)
  {
    var r := StripSet(s, cs);
    if r != [] {
      assert LeadingCount(r, cs) == 0;
      assert TrailingCount(r, cs) == 0;
      assert r[0..|r| - 0] == r;
    }
  }

  // ---------------------------------------------------------------------------
  // Searching
  // ---------------------------------------------------------------------------

  /** Index of the first occurrence of `c` in `s`. */
  function FirstIndex(s: string, c: char): (i: nat)
    requires c in s
    ensures i < |s| && s[i] == c
    ensures forall j :: 0 <= j < i ==> s[j] != c
  {
    if s[0] == c then 0 else 1 + FirstIndex(s[1..], c)
  }

  /** Index of the last occurrence of `c` in `s`. */
  function LastIndex(s: string, c: char): (i: nat)
    requires c in s
    ensures i < |s| && s[i] == c
    ensures forall j :: i < j < |s| ==> s[j] != c
  {
    if s[|s| - 1] == c then |s| - 1
    else
      assert c in s[..|s| - 1] by {
        var k :| 0 <= k < |s| && s[k] == c;
        assert s[..|s| - 1][k] == c;
      }
      LastIndex(s[..|s| - 1], c)
  }

  // ---------------------------------------------------------------------------
  // Split and join
  // ---------------------------------------------------------------------------

  /**
   * `s.split(c)` for a one-character separator: always at least one piece.
   * Defined from the last separator backwards, which yields the same pieces
   * as Python's left-to-right scan.
   */
  function Split(s: string, c: char): (parts: seq<string>)
    ensures |parts| >= 1
    decreases |s|
  {
    if c !in s then [s]
    else
      var i := LastIndex(s, c);
      Split(s[..i], c) + [s[i + 1..]]
  }

  /** Splitting at the last separator: the split of the text before it, then the text after it. */
  lemma SplitSnoc(s: string, c: char)
    requires c in s
    ensures Split(s, c) == Split(s[..LastIndex(s, c)], c) + [s[LastIndex(s, c) + 1..]]
  {
    var i := LastIndex(s, c);
    assert Split(s, c) == Split(s[..i], c) + [s[i + 1..]];
  }

  /** `sep.join(parts)`. */
  function Join(parts: seq<string>, sep: string): string
  {
    if |parts| == 0 then ""
    else if |parts| == 1 then parts[0]
    else Join(parts[..|parts| - 1], sep) + sep + parts[|parts| - 1]
  }

  /** Appending one more piece adds a separator only when something precedes it. */
  lemma JoinSnoc(parts: seq<string>, x: string, sep: string)
    ensures Join(parts + [x], sep) == if parts == [] then x else Join(parts, sep) + sep + x
  {
    assert (parts + [x])[..|parts|] == parts;
  }

  /**
   * Joining non-empty pieces gives a non-empty string that starts with the
   * first piece's first character and ends with the last piece's last one.
   */
  lemma {:induction false} JoinEnds(parts: seq<string>, sep: string)
    requires |parts| > 0
    requires forall k :: 0 <= k < |parts| ==> parts[k] != []
    ensures Join(parts, sep) != []
    ensures Join(parts, sep)[0] == parts[0][0]
    ensures Join(parts, sep)[|Join(parts, sep)| - 1] == parts[|parts| - 1][|parts[|parts| - 1]| - 1]
  {
    if |parts| > 1 {
      var init := parts[..|parts| - 1];
      JoinEnds(init, sep);
    }
  }

  /** Splitting has more than one piece exactly when the separator occurs. */
  lemma SplitManyIff(s: string, c: char)
    ensures |Split(s, c)| >= 2 <==> c in s
  {
    if c in s {
      SplitSnoc(s, c);
    }
  }

  /** No piece of a split contains the separator. */
  lemma {:induction false} SplitPiecesFree(s: string, c: char)
    ensures forall k :: 0 <= k < |Split(s, c)| ==> c !in Split(s, c)[k]
    decreases |s|
  {
    if c in s {
      var i := LastIndex(s, c);
      SplitSnoc(s, c);
      SplitPiecesFree(s[..i], c);
      assert c !in s[i + 1..];
    }
  }

  /** A string is the text before position `i`, the character there, and the text after. */
  lemma {:induction false} Around(s: string, i: nat)
    requires i < |s|
    ensures s == s[..i] + [s[i]] + s[i + 1..]
  {
  }

  /** Round trip: joining the pieces with the separator gives back the string. */
  lemma {:induction false} JoinSplit(s: string, c: char)
    ensures Join(Split(s, c), [c]) == s
    decreases |s|
  {
    if c in s {
      var i := LastIndex(s, c);
      SplitSnoc(s, c);
      JoinSplit(s[..i], c);
      JoinSnoc(Split(s[..i], c), s[i + 1..], [c]);
      Around(s, i);
    }
  }

  /** The last piece of a split is the text after the last separator. */
  lemma SplitLast(s: string, c: char)
    requires c in s
    ensures Split(s, c)[|Split(s, c)| - 1] == s[LastIndex(s, c) + 1..]
  {
    SplitSnoc(s, c);
  }
}
