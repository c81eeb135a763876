/** The string operations the scraper applies to the text it pulls out of a
    venue page: Python's `str.strip()`, `str.split(sep)` on one character, the
    first piece of a `re.split` on a literal separator, `str.replace(pat, '')`
    and `re.sub(r'\W+', '', s)`. */
module Text {

  /** The characters for which Python's `str.isspace()` holds; `str.strip()`
      with no argument removes exactly these from both ends. None of them is
      a word character or the hyphen the style line is split on. */
  predicate IsSpace(c: char)
    ensures IsSpace(c) ==> !IsWordChar(c) && c != '-'
  {
    || ('\t' <= c <= '\r')
    || ('\U{001C}' <= c <= '\U{001F}')
    || c == ' '
    || c == '\U{0085}'
    || c == '\U{00A0}'
    || c == '\U{1680}'
    || ('\U{2000}' <= c <= '\U{200A}')
    || c == '\U{2028}'
    || c == '\U{2029}'
    || c == '\U{202F}'
    || c == '\U{205F}'
    || c == '\U{3000}'
  }

  /** Every character of `s` is whitespace. */
  predicate AllSpace(s: string) {
    forall k :: 0 <= k < |s| ==> IsSpace(s[k])
  }

  /** `s` neither starts nor ends with whitespace: what `str.strip()`
      returns. */
  predicate Trimmed(s: string) {
    s == [] || (!IsSpace(s[0]) && !IsSpace(s[|s| - 1]))
  }

  /** `s` starts with `p`. */
  predicate StartsWith(s: string, p: string) {
    |p| <= |s| && s[..|p|] == p
  }

  // ---------------------------------------------------------------------------
  // str.strip()

  /** Removes the leading whitespace: what is left is a suffix of `s`, every
      character dropped is whitespace, and the first one kept is not. */
  function TrimStart(s: string): (r: string)
    ensures |r| <= |s| && r == s[|s| - |r|..]
    ensures forall i :: 0 <= i < |s| - |r| ==> IsSpace(s[i])
    ensures r == [] || !IsSpace(r[0])
  {
    if s != [] && IsSpace(s[0]) then
      var r := TrimStart(s[1..]);
      assert forall i :: 1 <= i < |s| - |r| ==> s[i] == s[1..][i - 1];
      r
    else
      s
  }

  /** Removes the trailing whitespace: what is left is a prefix of `s`, every
      character dropped is whitespace, and the last one kept is not. */
  function TrimEnd(s: string): (r: string)
    ensures |r| <= |s| && r == s[..|r|]
    ensures forall i :: |r| <= i < |s| ==> IsSpace(s[i])
    ensures r == [] || !IsSpace(r[|r| - 1])
  {
    if s != [] && IsSpace(s[|s| - 1]) then
      var r := TrimEnd(s[..|s| - 1]);
      assert forall i :: |r| <= i < |s| - 1 ==> s[i] == s[..|s| - 1][i];
      r
    else
      s
  }

  /** Python's `s.strip()`. */
  function Strip(s: string): (r: string)
    ensures |r| <= |s|
    ensures Trimmed(r)
  {
    TrimEnd(TrimStart(s))
  }

  lemma TrimStartAt(s: string, i: nat)
    requires i <= |s|
    requires forall k :: 0 <= k < i ==> IsSpace(s[k])
    requires i == |s| || !IsSpace(s[i])
    ensures TrimStart(s) == s[i..]
  {
    var r := TrimStart(s);
    var lead := |s| - |r|;
    assert r != [] ==> r[0] == s[lead];
  }

  lemma TrimEndAt(s: string, j: nat)
    requires j <= |s|
    requires forall k :: j <= k < |s| ==> IsSpace(s[k])
    requires j == 0 || !IsSpace(s[j - 1])
    ensures TrimEnd(s) == s[..j]
  {
    var r := TrimEnd(s);
    assert r != [] ==> r[|r| - 1] == s[|r| - 1];
  }

  lemma SliceOfSuffix<T>(s: seq<T>, i: nat, j: nat)
    requires i <= j <= |s|
    ensures s[i..][..j - i] == s[i..j]
  {
  }

  lemma PiecesOfConcat<T>(a: seq<T>, x: T, b: seq<T>)
    ensures (a + [x] + b)[..|a|] == a && (a + [x] + b)[|a|] == x && (a + [x] + b)[|a| + 1..] == b
  {
  }

  lemma ConcatAssoc<T>(a: seq<T>, b: seq<T>, c: seq<T>)
    ensures (a + b) + c == a + (b + c)
  {
  }

  lemma MiddleOfConcat<T>(a: seq<T>, y: seq<T>, b: seq<T>)
    ensures (a + y + b)[|a|..|a| + |y|] == y
  {
  }

  /** `Strip` keeps exactly the stretch between the leading and the trailing
      whitespace: whenever `s[..i]` and `s[j..]` are all whitespace and
      `s[i..j]` neither starts nor ends with whitespace, `Strip(s)` is
      `s[i..j]`. */
  lemma StripIs(s: string, i: nat, j: nat)
    requires i <= j <= |s|
    requires forall k :: 0 <= k < i ==> IsSpace(s[k])
    requires forall k :: j <= k < |s| ==> IsSpace(s[k])
    requires i == j || (!IsSpace(s[i]) && !IsSpace(s[j - 1]))
    ensures Strip(s) == s[i..j]
  {
    if i == j {
      TrimStartAt(s, |s|);
      assert TrimStart(s) == [];
    } else {
      TrimStartAt(s, i);
      TrimEndOfSuffix(s, i, j);
    }
  }

  lemma TrimEndOfSuffix(s: string, i: nat, j: nat)
    requires i < j <= |s|
    requires forall k :: j <= k < |s| ==> IsSpace(s[k])
    requires !IsSpace(s[j - 1])
    ensures TrimEnd(s[i..]) == s[i..j]
  {
    var t := s[i..];
    forall k | j - i <= k < |t| ensures IsSpace(t[k]) {
      assert t[k] == s[i + k];
    }
    assert t[j - i - 1] == s[j - 1];
    TrimEndAt(t, j - i);
    SliceOfSuffix(s, i, j);
  }

  /** Whitespace around a stripped string is what `Strip` removes. */
  lemma StripPadded(a: string, y: string, b: string)
    requires AllSpace(a) && AllSpace(b) && Trimmed(y)
    ensures Strip(a + y + b) == y
  {
    var s := a + y + b;
    var i, j := |a|, |a| + |y|;
    forall k | 0 <= k < i ensures IsSpace(s[k]) {
      assert s[k] == a[k];
    }
    forall k | j <= k < |s| ensures IsSpace(s[k]) {
      assert s[k] == b[k - j];
    }
    assert y != [] ==> s[i] == y[0] && s[j - 1] == y[|y| - 1];
    StripIs(s, i, j);
    MiddleOfConcat(a, y, b);
  }

  lemma StripTrailing(y: string, b: string)
    requires Trimmed(y) && AllSpace(b)
    ensures Strip(y + b) == y
  {
    assert [] + y + b == y + b;
    StripPadded([], y, b);
  }

  lemma StripLeading(a: string, y: string)
    requires AllSpace(a) && Trimmed(y)
    ensures Strip(a + y) == y
  {
    assert a + y + [] == a + y;
    StripPadded(a, y, []);
  }

  /** Stripping twice is stripping once. */
  lemma StripIdempotent(s: string)
    ensures Strip(Strip(s)) == Strip(s)
  {
    var r := Strip(s);
    assert r == [] || (!IsSpace(r[0]) && !IsSpace(r[|r| - 1]));
    StripIs(r, 0, |r|);
  }

  // ---------------------------------------------------------------------------
  // str.split(sep) on a one-character separator

  /** The pieces joined back together with `sep` between them. */
  function Join(parts: seq<string>, sep: char): string
    requires |parts| > 0
  {
    if |parts| == 1 then parts[0] else parts[0] + [sep] + Join(parts[1..], sep)
  }

  /** Python's `s.split(sep)`: always at least one piece, no piece holds
      `sep`, and joining the pieces with `sep` gives back `s`; there is a
      single piece exactly when `sep` does not occur in `s`. */
  function Split(s: string, sep: char): (parts: seq<string>)
    ensures |parts| > 0
    ensures forall i :: 0 <= i < |parts| ==> sep !in parts[i]
    ensures Join(parts, sep) == s
    ensures |parts| == 1 <==> sep !in s
  {
    if s == [] then
      [[]]
    else
      var rest := Split(s[1..], sep);
      if s[0] == sep then
        [[]] + rest
      else
        var parts := [[s[0]] + rest[0]] + rest[1..];
        assert parts[1..] == rest[1..];
        assert s == [s[0]] + s[1..];
        if |rest| == 1 then parts
        else
          assert Join(rest, sep) == rest[0] + [sep] + Join(rest[1..], sep);
          parts
  }

  /** Splitting is the inverse of joining: pieces free of `sep` come back
      unchanged from `Split(Join(parts, sep), sep)`. */
  lemma {:induction false} SplitJoin(parts: seq<string>, sep: char)
    requires |parts| > 0
    requires forall i :: 0 <= i < |parts| ==> sep !in parts[i]
    ensures Split(Join(parts, sep), sep) == parts
  {
    if |parts| == 1 {
      SplitNone(parts[0], sep);
    } else {
      SplitJoin(parts[1..], sep);
      var rest := Join(parts[1..], sep);
      assert Join(parts, sep) == parts[0] + [sep] + rest;
      PiecesOfConcat(parts[0], sep, rest);
      SplitAt(parts[0] + [sep] + rest, sep, |parts[0]|);
      assert parts == [parts[0]] + parts[1..];
    }
  }

  /** Without `sep` in `s` there is one piece, `s` itself. */
  lemma SplitNone(s: string, sep: char)
    requires sep !in s
    ensures Split(s, sep) == [s]
  {
    var parts := Split(s, sep);
    assert |parts| == 1;
  }

  /** When the first `sep` of `s` is at `i`, the first piece is `s[..i]` and
      the others are the pieces of what follows it. */
  lemma {:induction false} SplitAt(s: string, sep: char, i: nat)
    requires i < |s| && s[i] == sep && sep !in s[..i]
    ensures Split(s, sep) == [s[..i]] + Split(s[i + 1..], sep)
  {
    if i > 0 {
      var u := s[1..];
      assert s[..i] == [s[0]] + u[..i - 1];
      SplitAt(u, sep, i - 1);
      assert u[i..] == s[i + 1..];
      SplitCons(s, sep);
    }
  }

  /** The first piece runs up to the first `sep`, or to the end of `s`. */
  lemma SplitFirst(s: string, sep: char, m: nat)
    requires m <= |s| && sep !in s[..m]
    requires m == |s| || s[m] == sep
    ensures Split(s, sep)[0] == s[..m]
  {
    if m == |s| {
      assert s[..m] == s;
      SplitNone(s, sep);
    } else {
      SplitAt(s, sep, m);
    }
  }

  /** One step of `Split` on a string that does not start with `sep`. */
  lemma SplitCons(s: string, sep: char)
    requires s != [] && s[0] != sep
    ensures Split(s, sep) == [[s[0]] + Split(s[1..], sep)[0]] + Split(s[1..], sep)[1..]
  {
  }

  // ---------------------------------------------------------------------------
  // re.split(sep, s)[0] on a literal separator

  /** The text before the first occurrence of `sep` (all of `s` when there is
      none): `re.split(sep, s)[0]` for a separator without regular-expression
      metacharacters. */
  function BeforeFirst(s: string, sep: string): (r: string)
    requires sep != []
    ensures |r| <= |s| && r == s[..|r|]
    ensures forall i :: 0 <= i < |r| ==> !StartsWith(s[i..], sep)
    ensures |r| == |s| || StartsWith(s[|r|..], sep)
  {
    if s == [] || StartsWith(s, sep) then
      []
    else
      var r := BeforeFirst(s[1..], sep);
      assert forall i :: 1 <= i <= |s| ==> s[i..] == s[1..][i - 1..];
      [s[0]] + r
  }

  /** `BeforeFirst` stops at the first occurrence and nowhere else: when
      `sep` starts nowhere before `k` and does start at `k` (or `k` is the
      end of `s`), the result is `s[..k]`. */
  lemma BeforeFirstIs(s: string, sep: string, k: nat)
    requires sep != [] && k <= |s|
    requires forall i :: 0 <= i < k ==> !StartsWith(s[i..], sep)
    requires k == |s| || StartsWith(s[k..], sep)
    ensures BeforeFirst(s, sep) == s[..k]
  {
    var r := BeforeFirst(s, sep);
    assert |r| < |s| ==> StartsWith(s[|r|..], sep);
    assert k < |s| ==> StartsWith(s[k..], sep);
  }

  // ---------------------------------------------------------------------------
  // str.replace(pat, '')

  /** Python's `s.replace(pat, '')`: one scan from the left that drops each
      occurrence of `pat` it meets, without looking again at what the removal
      brings together. */
  function RemoveAll(s: string, pat: string): (r: string)
    requires pat != []
    ensures |r| <= |s|
    decreases |s|
  {
    if s == [] then
      []
    else if StartsWith(s, pat) then
      RemoveAll(s[|pat|..], pat)
    else
      [s[0]] + RemoveAll(s[1..], pat)
  }

  /** A string in which `pat` does not occur is left as it is. */
  lemma {:induction false} RemoveAllNone(s: string, pat: string)
    requires pat != []
    requires forall i :: 0 <= i < |s| ==> !StartsWith(s[i..], pat)
    ensures RemoveAll(s, pat) == s
  {
    if s != [] {
      assert s[0..] == s;
      forall i | 0 <= i < |s[1..]| ensures !StartsWith(s[1..][i..], pat) {
        assert s[1..][i..] == s[i + 1..];
      }
      RemoveAllNone(s[1..], pat);
      assert s == [s[0]] + s[1..];
    }
  }

  /** A trailing `pat` is removed and nothing before it is touched, provided
      `pat` does not start anywhere inside `x`. */
  lemma {:induction false} RemoveAllTrailing(x: string, pat: string)
    requires pat != []
    requires forall i :: 0 <= i < |x| ==> !StartsWith((x + pat)[i..], pat)
    ensures RemoveAll(x + pat, pat) == x
  {
    if x == [] {
      assert (x + pat)[|pat|..] == [];
    } else {
      assert !StartsWith((x + pat)[0..], pat);
      assert (x + pat)[0..] == x + pat;
      assert (x + pat)[1..] == x[1..] + pat;
      forall i | 0 <= i < |x[1..]|
        ensures !StartsWith((x[1..] + pat)[i..], pat)
      {
        assert (x[1..] + pat)[i..] == (x + pat)[i + 1..];
      }
      RemoveAllTrailing(x[1..], pat);
    }
  }

  /** One step of the scan: a character where `pat` does not start is kept. */
  lemma RemoveAllKeeps(s: string, pat: string)
    requires pat != [] && s != [] && !StartsWith(s, pat)
    ensures RemoveAll(s, pat) == [s[0]] + RemoveAll(s[1..], pat)
  {
  }

  /** One step of the scan: an occurrence of `pat` at the start is dropped. */
  lemma RemoveAllDrops(s: string, pat: string)
    requires pat != [] && StartsWith(s, pat)
    ensures RemoveAll(s, pat) == RemoveAll(s[|pat|..], pat)
  {
  }

  /** `pat` occurs in `s` at position `j`. */
  predicate OccursAt(s: string, pat: string, j: nat) {
    j + |pat| <= |s| && s[j..j + |pat|] == pat
  }

  lemma OccursAtStart(s: string, pat: string, j: nat)
    requires j <= |s|
    ensures OccursAt(s, pat, j) <==> StartsWith(s[j..], pat)
  {
    if j + |pat| <= |s| {
      assert s[j..][..|pat|] == s[j..j + |pat|];
    }
  }

  lemma OccursInTail(s: string, pat: string, j: nat)
    requires s != []
    ensures OccursAt(s[1..], pat, j) <==> OccursAt(s, pat, j + 1)
  {
    if j + 1 + |pat| <= |s| {
      assert s[1..][j..j + |pat|] == s[j + 1..j + 1 + |pat|];
    }
  }

  /** The first occurrence of `pat` in `x + y` is at the start of `y`: the
      scan keeps `x`, drops that occurrence and carries on after it. */
  lemma {:induction false} RemoveAllAt(x: string, y: string, pat: string)
    requires pat != [] && StartsWith(y, pat)
    requires forall j :: 0 <= j < |x| ==> !OccursAt(x + y, pat, j)
    ensures RemoveAll(x + y, pat) == x + RemoveAll(y[|pat|..], pat)
  {
    var rest := RemoveAll(y[|pat|..], pat);
    if x == [] {
      assert x + y == y;
      RemoveAllDrops(y, pat);
    } else {
      var s := x + y;
      OccursAtStart(s, pat, 0);
      assert s[0..] == s;
      RemoveAllKeeps(s, pat);
      assert s[1..] == x[1..] + y;
      forall j | 0 <= j < |x[1..]| ensures !OccursAt(x[1..] + y, pat, j) {
        OccursInTail(s, pat, j);
      }
      RemoveAllAt(x[1..], y, pat);
      ConcatAssoc([x[0]], x[1..], rest);
      assert [x[0]] + x[1..] == x;
    }
  }

  // ---------------------------------------------------------------------------
  // re.sub(r'\W+', '', s)

  /** A word character of a regular expression: an ASCII letter, an ASCII
      digit or the underscore; never a slash, so a key is one path segment. */
  predicate IsWordChar(c: char)
    ensures IsWordChar(c) ==> c < '\U{0080}' && c != '/' && c != '.'
  {
    ('a' <= c <= 'z') || ('A' <= c <= 'Z') || ('0' <= c <= '9') || c == '_'
  }

  /** `re.sub(r'\W+', '', s)`: every run of non-word characters removed, so
      that the word characters of `s` remain, in their order. */
  function WordCharsOnly(s: string): (k: string)
    ensures |k| <= |s|
    ensures forall i :: 0 <= i < |k| ==> IsWordChar(k[i])
  {
    if s == [] then
      []
    else
      (if IsWordChar(s[0]) then [s[0]] else []) + WordCharsOnly(s[1..])
  }

  /** The characters kept are exactly the word characters of `s`. */
  lemma {:induction false} WordCharsOnlyMembers(s: string, c: char)
    ensures c in WordCharsOnly(s) <==> c in s && IsWordChar(c)
  {
    if s != [] {
      WordCharsOnlyMembers(s[1..], c);
      assert s == [s[0]] + s[1..];
    }
  }

  /** The word characters are kept: `WordCharsOnly` leaves a string alone
      exactly when every character of it is a word character. */
  lemma {:induction false} WordCharsOnlyFixed(s: string)
    ensures WordCharsOnly(s) == s <==> forall i :: 0 <= i < |s| ==> IsWordChar(s[i])
  {
    if s != [] {
      WordCharsOnlyFixed(s[1..]);
      if !IsWordChar(s[0]) {
        assert |WordCharsOnly(s)| < |s|;
      } else if WordCharsOnly(s) == s {
        assert WordCharsOnly(s[1..]) == s[1..];
      }
    }
  }

  /** Removing the non-word characters a second time changes nothing. */
  lemma WordCharsOnlyIdempotent(s: string)
    ensures WordCharsOnly(WordCharsOnly(s)) == WordCharsOnly(s)
  {
    WordCharsOnlyFixed(WordCharsOnly(s));
  }

  /** The removal works character by character: that of a concatenation is
      the concatenation of the removals. */
  lemma {:induction false} WordCharsOnlyAppend(a: string, b: string)
    ensures WordCharsOnly(a + b) == WordCharsOnly(a) + WordCharsOnly(b)
  {
    if a != [] {
      assert (a + b)[1..] == a[1..] + b;
      WordCharsOnlyAppend(a[1..], b);
    } else {
      assert a + b == b;
    }
  }
}
