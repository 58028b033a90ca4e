/**
 * The pieces of Go's standard library that the HTTP layer leans on
 * (bytes.Index, strings.Split, strings.TrimSpace, strings.ToLower,
 * strings.TrimPrefix/TrimSuffix, bytes.Cut, strconv.Atoi and the %d and %x
 * verbs of fmt), stated over strings whose characters stand for octets.
 * Character classes (white space, letters, digits, upper case) are those
 * of ASCII.
 */
module Text {
  import opened Wrappers

  /** The line terminator of HTTP/1.1 framing. */
  const CRLF: string := "\r\n"

  // ---------------------------------------------------------------------
  // Searching: bytes.Index / strings.Index
  // ---------------------------------------------------------------------

  /** `pat` occurs in `s` starting at position `i`. */
  predicate OccursAt(s: string, pat: string, i: int) {
    0 <= i && i + |pat| <= |s| && s[i..i + |pat|] == pat
  }

  /** Occurrences in `s[1..]` are the occurrences in `s` shifted by one. */
  lemma OccursShift(s: string, pat: string, k: int)
    requires |s| > 0 && 0 <= k
    ensures OccursAt(s[1..], pat, k) <==> OccursAt(s, pat, k + 1)
  {
    if 0 <= k && k + |pat| <= |s| - 1 {
      assert s[1..][k..k + |pat|] == s[k + 1..k + 1 + |pat|];
    }
  }

  /** Occurrences inside a prefix are occurrences in the whole string. */
  lemma OccursPrefix(s: string, pat: string, i: nat, j: int)
    requires i <= |s|
    ensures OccursAt(s[..i], pat, j) ==> OccursAt(s, pat, j)
  {
    if OccursAt(s[..i], pat, j) {
      assert s[..i][j..j + |pat|] == s[j..j + |pat|];
    }
  }

  /** Index of the first occurrence of `pat` in `s`, or -1 when there is none. */
  function Index(s: string, pat: string): (i: int)
    ensures -1 <= i <= |s|
    ensures i >= 0 ==> OccursAt(s, pat, i)
    ensures i >= 0 ==> forall j :: 0 <= j < i ==> !OccursAt(s, pat, j)
    ensures i == -1 ==> forall j :: 0 <= j <= |s| ==> !OccursAt(s, pat, j)
    decreases |s|
  {
    if |s| < |pat| then -1
    else if s[..|pat|] == pat then 0
    else
      var j := Index(s[1..], pat);
      assert !OccursAt(s, pat, 0);
      assert forall k :: 0 <= k <= |s| - 1 ==> (OccursAt(s[1..], pat, k) <==> OccursAt(s, pat, k + 1)) by {
        forall k | 0 <= k <= |s| - 1 ensures OccursAt(s[1..], pat, k) <==> OccursAt(s, pat, k + 1) {
          OccursShift(s, pat, k);
        }
      }
      if j < 0 then
        assert forall k :: 1 <= k <= |s| ==> !OccursAt(s, pat, k) by {
          forall k | 1 <= k <= |s| ensures !OccursAt(s, pat, k) {
            assert !OccursAt(s[1..], pat, k - 1);
          }
        }
        -1
      else
        assert forall k :: 1 <= k < j + 1 ==> !OccursAt(s, pat, k) by {
          forall k | 1 <= k < j + 1 ensures !OccursAt(s, pat, k) {
            assert !OccursAt(s[1..], pat, k - 1);
          }
        }
        j + 1
  }

  predicate Contains(s: string, pat: string) {
    Index(s, pat) >= 0
  }

  /** The text before the first occurrence of a non-empty pattern does not hold it. */
  lemma BeforeIndex(s: string, pat: string)
    requires |pat| > 0 && Index(s, pat) >= 0
    ensures !Contains(s[..Index(s, pat)], pat)
  {
    var i := Index(s, pat);
    forall j | 0 <= j <= i
      ensures !OccursAt(s[..i], pat, j)
    {
      OccursPrefix(s, pat, i, j);
    }
  }

  /** The first occurrence of a character that the text before it does not hold. */
  lemma IndexOfChar(a: string, c: char, b: string)
    requires c !in a
    ensures Index(a + [c] + b, [c]) == |a|
  {
    var s := a + [c] + b;
    assert s[|a|..|a| + 1] == [c];
    assert OccursAt(s, [c], |a|);
    forall j | 0 <= j < |a|
      ensures !OccursAt(s, [c], j)
    {
      assert s[j..j + 1] == [a[j]];
      assert a[j] != c;
    }
  }

  /** The first CRLF and the text before it make up a prefix of the data. */
  lemma LineBeforeCRLF(data: string, idx: int)
    requires Index(data, CRLF) == idx >= 0
    ensures idx + 2 <= |data| && data[..idx + 2] == data[..idx] + CRLF
  {
    assert OccursAt(data, CRLF, idx);
    PrefixThenSlice(data, idx, idx + 2);
  }

  /** The prefix up to `j` is the prefix up to `i` and the slice from `i` to `j`. */
  lemma PrefixThenSlice(s: string, i: nat, j: nat)
    requires i <= j <= |s|
    ensures s[..j] == s[..i] + s[i..j]
  {
  }

  /** A character is found exactly when the text holds it. */
  lemma IndexFindsChar(s: string, c: char)
    ensures Index(s, [c]) == -1 <==> c !in s
  {
    var i := Index(s, [c]);
    if i >= 0 {
      assert s[i..i + 1][0] == s[i];
    }
    if c in s {
      var k :| 0 <= k < |s| && s[k] == c;
      assert s[k..k + 1] == [c];
      assert OccursAt(s, [c], k);
    }
  }

  /** A line that holds no CRLF, followed by CRLF: its first CRLF is the terminator. */
  lemma LineEnd(line: string, rest: string)
    requires !Contains(line, CRLF)
    ensures Index(line + CRLF + rest, CRLF) == |line|
  {
    var s := line + CRLF + rest;
    assert s[|line|..|line| + 2] == CRLF;
    assert s[|line|] == '\r';
    assert OccursAt(s, CRLF, |line|);
    forall j | 0 <= j < |line|
      ensures !OccursAt(s, CRLF, j)
    {
      if OccursAt(s, CRLF, j) {
        assert s[j] == '\r' && s[j + 1] == '\n' by { assert s[j..j + 2][0] == s[j] && s[j..j + 2][1] == s[j + 1]; }
        if j + 2 <= |line| {
          assert line[j..j + 2] == s[j..j + 2];
          assert OccursAt(line, CRLF, j);
        }
      }
    }
  }

  /** A proper prefix of "line CRLF ..." shorter than the line and its CRLF holds no CRLF. */
  lemma PartialLine(line: string, rest: string, q: nat)
    requires !Contains(line, CRLF)
    requires q < |line| + 2
    ensures !Contains((line + CRLF + rest)[..q], CRLF)
  {
    var s := (line + CRLF + rest)[..q];
    assert q > |line| ==> s[|line|] == '\r';
    forall j | 0 <= j <= |s|
      ensures !OccursAt(s, CRLF, j)
    {
      if OccursAt(s, CRLF, j) {
        assert s[j] == '\r' && s[j + 1] == '\n' by { assert s[j..j + 2][0] == s[j] && s[j..j + 2][1] == s[j + 1]; }
        if j + 2 <= |line| {
          assert line[j..j + 2] == s[j..j + 2];
          assert OccursAt(line, CRLF, j);
        }
      }
    }
  }

  // ---------------------------------------------------------------------
  // strings.Split and its inverse
  // ---------------------------------------------------------------------

  /** The pieces joined back together, separated by `sep`. */
  function Join(parts: seq<string>, sep: string): string {
    if |parts| == 0 then ""
    else if |parts| == 1 then parts[0]
    else parts[0] + sep + Join(parts[1..], sep)
  }

  /**
   * strings.Split with a non-empty separator: the text around every
   * occurrence of `sep`, scanning left to right.
   */
  function Split(s: string, sep: string): (parts: seq<string>)
    requires |sep| > 0
    ensures |parts| >= 1
    decreases |s|
  {
    var i := Index(s, sep);
    if i < 0 then [s]
    else [s[..i]] + Split(s[i + |sep|..], sep)
  }

  /** The pieces hold no separator, and joined back with it they give the text. */
  lemma {:induction false} SplitJoins(s: string, sep: string)
    requires |sep| > 0
    ensures forall k :: 0 <= k < |Split(s, sep)| ==> !Contains(Split(s, sep)[k], sep)
    ensures Join(Split(s, sep), sep) == s
    decreases |s|
  {
    var i := Index(s, sep);
    if i >= 0 {
      BeforeIndex(s, sep);
      SplitJoins(s[i + |sep|..], sep);
      assert s == s[..i] + sep + s[i + |sep|..] by { assert s[i..i + |sep|] == sep; }
      var parts := Split(s, sep);
      assert parts[1..] == Split(s[i + |sep|..], sep);
    }
  }

  /** No piece of a split holds the separator. */
  lemma PiecesLackSeparator(s: string, sep: string)
    requires |sep| > 0
    ensures forall k :: 0 <= k < |Split(s, sep)| ==> !Contains(Split(s, sep)[k], sep)
  {
    SplitJoins(s, sep);
  }

  /** Text without the separator is split into itself alone. */
  lemma SplitNone(s: string, sep: string)
    requires |sep| > 0 && !Contains(s, sep)
    ensures Split(s, sep) == [s]
  {
  }

  /** Once the first separator is known to end `a`, the split is `a` and the split of what follows. */
  lemma SplitFirst(a: string, sep: string, b: string)
    requires |sep| > 0 && Index(a + sep + b, sep) == |a|
    ensures Split(a + sep + b, sep) == [a] + Split(b, sep)
  {
    var s := a + sep + b;
    assert s[..|a|] == a;
    assert s[|a| + |sep|..] == b;
  }

  /**
   * The first piece of a split at a character: a prefix of the text without
   * the character, which ends the text or is followed by the character.
   */
  lemma FirstPiece(s: string, c: char)
    ensures var q := Split(s, [c])[0];
      |q| <= |s| && s[..|q|] == q && c !in q && (|q| == |s| || s[|q|] == c)
  {
    var j := Index(s, [c]);
    if j < 0 {
      ContainsChar(s, c);
    } else {
      BeforeIndex(s, [c]);
      ContainsChar(s[..j], c);
      assert s[j..j + 1] == [c];
    }
  }

  /** A text that holds the character splits into at least two pieces, the second being the first piece of what follows it. */
  lemma SplitsAtChar(s: string, c: char)
    requires c in s
    ensures var i := Index(s, [c]);
      && 0 <= i < |s| && s[i] == c
      && |Split(s, [c])| >= 2 && Split(s, [c])[1] == Split(s[i + 1..], [c])[0]
  {
    ContainsChar(s, c);
    var i := Index(s, [c]);
    assert s[i..i + 1] == [c];
  }

  /** The longest prefix without `c` of "x more", where `x` holds no `c` and `more` is empty or starts with `c`, is `x`. */
  lemma UpToChar(s: string, x: string, more: string, q: string, c: char)
    requires s == x + more && c !in x && (more == "" || more[0] == c)
    requires |q| <= |s| && s[..|q|] == q && c !in q && (|q| == |s| || s[|q|] == c)
    ensures q == x
  {
    if |q| < |x| {
      assert false;
    } else if |q| > |x| {
      ElementIn(q, |x|);
      assert false;
    }
  }

  /** A character at a position of a text is in the text. */
  lemma ElementIn(q: string, i: nat)
    requires i < |q|
    ensures q[i] in q
  {
  }

  /** A two-character pattern whose characters differ, after text that does not hold it: its first occurrence is right there. */
  lemma IndexPair(a: string, pat: string, b: string)
    requires |pat| == 2 && pat[0] != pat[1] && !Contains(a, pat)
    ensures Index(a + pat + b, pat) == |a|
  {
    var s := a + pat + b;
    assert s[|a|..|a| + 2] == pat;
    assert OccursAt(s, pat, |a|);
    forall j | 0 <= j < |a|
      ensures !OccursAt(s, pat, j)
    {
      if OccursAt(s, pat, j) {
        assert s[j] == pat[0] && s[j + 1] == pat[1] by { assert s[j..j + 2][0] == s[j] && s[j..j + 2][1] == s[j + 1]; }
        if j + 2 <= |a| {
          assert a[j..j + 2] == s[j..j + 2];
          assert OccursAt(a, pat, j);
        }
      }
    }
  }

  /** An occurrence inside a piece of a concatenation is an occurrence in the whole. */
  lemma ContainsWithin(a: string, m: string, b: string, pat: string)
    requires Contains(m, pat)
    ensures Contains(a + m + b, pat)
  {
    var i := Index(m, pat);
    var s := a + m + b;
    assert s[|a| + i..|a| + i + |pat|] == m[i..i + |pat|];
    assert OccursAt(s, pat, |a| + i);
  }

  /** A pattern occurs in itself. */
  lemma ContainsSelf(pat: string)
    ensures Contains(pat, pat)
  {
    assert pat[0..|pat|] == pat;
    assert OccursAt(pat, pat, 0);
  }

  /**
   * "a c b c d tail", where the fields hold no `c` and the tail is empty or
   * starts with `c`: split at `c`, its first three pieces are the fields.
   */
  lemma FirstThreeFields(s: string, a: string, b: string, d: string, tail: string, c: char)
    requires s == a + [c] + b + [c] + d + tail
    requires c !in a && c !in b && c !in d && (tail == "" || tail[0] == c)
    ensures var parts := Split(s, [c]);
      |parts| >= 3 && parts[0] == a && parts[1] == b && parts[2] == d
  {
    var r := d + tail;
    assert s == a + [c] + b + [c] + r;
    FirstTwoPieces(s, a, b, r, c);
    FirstPieceIs(r, d, tail, c);
  }

  /** "a c b c r", where `a` and `b` hold no `c`: the split at `c` is `a`, `b`, then the split of `r`. */
  lemma FirstTwoPieces(s: string, a: string, b: string, r: string, c: char)
    requires s == a + [c] + b + [c] + r
    requires c !in a && c !in b
    ensures Split(s, [c]) == [a, b] + Split(r, [c])
  {
    var r1 := b + [c] + r;
    assert Split(r1, [c]) == [b] + Split(r, [c]) by {
      SplitAtChar(b, c, r);
    }
    assert Split(s, [c]) == [a] + Split(r1, [c]) by {
      assert s == a + [c] + r1;
      SplitAtChar(a, c, r1);
    }
  }

  /** Splitting at CRLF undoes joining with CRLF pieces that hold none. */
  lemma {:induction false} SplitJoinLines(parts: seq<string>)
    requires |parts| >= 1
    requires forall k :: 0 <= k < |parts| ==> !Contains(parts[k], CRLF)
    ensures Split(Join(parts, CRLF), CRLF) == parts
    decreases |parts|
  {
    if |parts| == 1 {
      SplitNone(parts[0], CRLF);
    } else {
      var rest := Join(parts[1..], CRLF);
      IndexPair(parts[0], CRLF, rest);
      SplitFirst(parts[0], CRLF, rest);
      SplitJoinLines(parts[1..]);
      assert parts == [parts[0]] + parts[1..];
    }
  }

  /** A text holding `c` starts with its first piece, `c` and its second piece, followed by the end or another `c`. */
  lemma SecondPiece(s: string, c: char)
    requires c in s
    ensures |Split(s, [c])| >= 2
    ensures var a, b := Split(s, [c])[0], Split(s, [c])[1];
      && c !in a && c !in b
      && |a| + 1 + |b| <= |s| && s[..|a| + 1 + |b|] == a + [c] + b
      && (|a| + 1 + |b| == |s| || s[|a| + 1 + |b|] == c)
  {
    var a := Split(s, [c])[0];
    FirstPieceEnds(s, c);
    var r := s[|a| + 1..];
    SplitAtChar(a, c, r);
    FirstPiece(r, c);
    var b := Split(r, [c])[0];
    assert Split(s, [c])[1] == b;
    PrefixThrough(s, a, c, r, |b|);
    assert |s| == |a| + 1 + |r|;
    assert |b| < |r| ==> s[|a| + 1 + |b|] == r[|b|];
  }

  /** A text holding `c` is its first piece, `c`, and the rest. */
  lemma FirstPieceEnds(s: string, c: char)
    requires c in s
    ensures var a := Split(s, [c])[0];
      c !in a && |a| < |s| && s == a + [c] + s[|a| + 1..]
  {
    FirstPiece(s, c);
    var a := Split(s, [c])[0];
    assert s == s[..|a|] + s[|a|..];
  }

  /** The prefix of "a c r" that ends `k` characters into `r`. */
  lemma PrefixThrough(s: string, a: string, c: char, r: string, k: nat)
    requires s == a + [c] + r && k <= |r|
    ensures s[..|a| + 1 + k] == a + [c] + r[..k]
  {
  }

  /** The first piece of "x more" split at `c`, where `x` holds no `c` and `more` is empty or starts with `c`, is `x`. */
  lemma FirstPieceIs(s: string, x: string, more: string, c: char)
    requires s == x + more && c !in x && (more == "" || more[0] == c)
    ensures Split(s, [c])[0] == x
  {
    FirstPiece(s, c);
    UpToChar(s, x, more, Split(s, [c])[0], c);
  }

  /** Text without `c`, then `c`: the split at `c` starts with that text and goes on with the split of the rest. */
  lemma SplitAtChar(a: string, c: char, r: string)
    requires c !in a
    ensures Split(a + [c] + r, [c]) == [a] + Split(r, [c])
  {
    IndexOfChar(a, c, r);
    SplitFirst(a, [c], r);
  }

  /**
   * Split at a two-character separator whose characters differ, the last
   * piece is the text after the last separator.
   */
  lemma {:induction false} LastPiece(s: string, before: string, sep: string, after: string)
    requires |sep| == 2 && sep[0] != sep[1]
    requires s == before + sep + after && !Contains(after, sep)
    ensures var parts := Split(s, sep); parts[|parts| - 1] == after
    decreases |s|
  {
    var tail := sep + after;
    assert s == before + tail;
    assert OccursAt(s, sep, |before|) by { assert s[|before|..|before| + 2] == sep; }
    var i := Index(s, sep);
    var rest := s[i + 2..];
    var parts := Split(s, sep);
    var restParts := Split(rest, sep);
    assert parts == [s[..i]] + restParts;
    assert parts[|parts| - 1] == restParts[|restParts| - 1];
    if i == |before| {
      assert rest == after;
      SplitNone(after, sep);
      assert restParts[|restParts| - 1] == after;
    } else {
      assert s[i + 1] == sep[1] by { assert s[i..i + 2][1] == s[i + 1]; }
      assert s[|before|] == sep[0];
      assert i + 2 <= |before|;
      DropConcat(before, tail, i + 2);
      assert rest == before[i + 2..] + sep + after;
      LastPiece(rest, before[i + 2..], sep, after);
      assert restParts[|restParts| - 1] == after;
    }
  }

  /** Dropping a prefix of the first piece of a concatenation. */
  lemma DropConcat(a: string, b: string, k: nat)
    requires k <= |a|
    ensures (a + b)[k..] == a[k..] + b
  {
  }

  /** A prefix of a text is a prefix of the text extended. */
  lemma PrefixExtends(s: string, p: string, t: string)
    requires HasPrefix(s, p)
    ensures HasPrefix(s + t, p)
  {
    assert (s + t)[..|p|] == s[..|p|];
  }

  /** The last two pieces of a concatenation are a suffix of it. */
  lemma SuffixOfLastTwo(x: string, a: string, b: string)
    ensures HasSuffix(x + a + b, a + b)
  {
    assert (x + a + b)[|x|..] == a + b;
  }

  /** The last three pieces of a concatenation are a suffix of it. */
  lemma SuffixOfLastThree(x: string, a: string, b: string, c: string)
    ensures HasSuffix(x + a + b + c, a + b + c)
  {
    assert (x + a + b + c)[|x|..] == a + b + c;
  }

  /** An occurrence in a text is an occurrence in the text extended on the right. */
  lemma ContainsExtends(s: string, t: string, pat: string)
    requires Contains(s, pat)
    ensures Contains(s + t, pat)
  {
    ContainsWithin("", s, t, pat);
    assert "" + s + t == s + t;
  }

  /** An occurrence in a text is an occurrence in the text extended on the left. */
  lemma ContainsAfter(a: string, s: string, pat: string)
    requires Contains(s, pat)
    ensures Contains(a + s, pat)
  {
    ContainsWithin(a, s, "", pat);
    assert a + s + "" == a + s;
  }

  /** A one-character pattern occurs exactly when the character does. */
  lemma ContainsChar(s: string, c: char)
    ensures Contains(s, [c]) <==> c in s
  {
    if c in s {
      var i :| 0 <= i < |s| && s[i] == c;
      assert s[i..i + 1] == [c];
      assert OccursAt(s, [c], i);
    } else {
      forall i | 0 <= i <= |s|
        ensures !OccursAt(s, [c], i)
      {
        assert i < |s| ==> s[i..i + 1] == [s[i]];
      }
    }
  }

  /** Splitting on one character undoes joining pieces that do not hold it. */
  lemma {:induction false} SplitJoin(parts: seq<string>, c: char)
    requires |parts| >= 1
    requires forall k :: 0 <= k < |parts| ==> c !in parts[k]
    ensures Split(Join(parts, [c]), [c]) == parts
    decreases |parts|
  {
    if |parts| == 1 {
      ContainsChar(parts[0], c);
    } else {
      var rest := Join(parts[1..], [c]);
      var s := Join(parts, [c]);
      assert s == parts[0] + [c] + rest;
      IndexOfChar(parts[0], c, rest);
      assert s[..|parts[0]|] == parts[0];
      assert s[|parts[0]| + 1..] == rest;
      SplitJoin(parts[1..], c);
      assert parts == [parts[0]] + parts[1..];
    }
  }

  /** bytes.Cut: the text before and after the first `sep`, and whether there was one. */
  function Cut(s: string, sep: string): (r: (string, string, bool))
    requires |sep| > 0
    ensures r.2 <==> Contains(s, sep)
    ensures r.2 ==> s == r.0 + sep + r.1 && !Contains(r.0, sep)
    ensures !r.2 ==> r.0 == s && r.1 == ""
  {
    var i := Index(s, sep);
    if i < 0 then (s, "", false)
    else
      assert s == s[..i] + sep + s[i + |sep|..] by { assert s[i..i + |sep|] == sep; }
      assert !Contains(s[..i], sep) by {
        forall j | 0 <= j <= i ensures !OccursAt(s[..i], sep, j) {
          OccursPrefix(s, sep, i, j);
        }
      }
      (s[..i], s[i + |sep|..], true)
  }

  // ---------------------------------------------------------------------
  // Prefixes, suffixes, white space and case
  // ---------------------------------------------------------------------

  predicate HasPrefix(s: string, p: string) {
    |p| <= |s| && s[..|p|] == p
  }

  predicate HasSuffix(s: string, p: string) {
    |p| <= |s| && s[|s| - |p|..] == p
  }

  function TrimPrefix(s: string, p: string): (r: string)
    ensures HasPrefix(s, p) ==> s == p + r
    ensures !HasPrefix(s, p) ==> r == s
  {
    if HasPrefix(s, p) then s[|p|..] else s
  }

  function TrimSuffix(s: string, p: string): (r: string)
    ensures HasSuffix(s, p) ==> s == r + p
    ensures !HasSuffix(s, p) ==> r == s
  {
    if HasSuffix(s, p) then s[..|s| - |p|] else s
  }

  /** The ASCII white space that strings.TrimSpace removes: tab, LF, VT, FF, CR and space (its non-ASCII white space is not modelled). */
  predicate IsSpace(c: char) {
    c == ' ' || ('\t' <= c <= '\r')
  }

  function TrimLeft(s: string): (r: string)
    ensures |r| <= |s| && s[|s| - |r|..] == r
    ensures r == "" || !IsSpace(r[0])
    decreases |s|
  {
    if |s| > 0 && IsSpace(s[0]) then TrimLeft(s[1..]) else s
  }

  function TrimRight(s: string): (r: string)
    ensures |r| <= |s| && s[..|r|] == r
    ensures r == "" || !IsSpace(r[|r| - 1])
    decreases |s|
  {
    if |s| > 0 && IsSpace(s[|s| - 1]) then TrimRight(s[..|s| - 1]) else s
  }

  /** strings.TrimSpace, for ASCII white space: drop it at both ends. */
  function TrimSpace(s: string): string {
    TrimRight(TrimLeft(s))
  }

  /** A string with no white space at either end. */
  predicate Trimmed(s: string) {
    s == "" || (!IsSpace(s[0]) && !IsSpace(s[|s| - 1]))
  }

  lemma TrimSpaceTrims(s: string)
    ensures Trimmed(TrimSpace(s))
  {
    var l := TrimLeft(s);
    var r := TrimRight(l);
    if r != "" {
      assert r[0] == l[0];
    }
  }

  lemma {:induction false} TrimSpaceOfTrimmed(s: string)
    requires Trimmed(s)
    ensures TrimSpace(s) == s
  {
  }

  function LowerChar(c: char): (d: char)
    ensures IsSpace(d) <==> IsSpace(c)
  {
    if 'A' <= c <= 'Z' then (c as int + 32) as char else c
  }

  /** strings.ToLower, ASCII letters only. */
  function ToLower(s: string): (r: string)
    ensures |r| == |s|
    ensures forall i :: 0 <= i < |s| ==> r[i] == LowerChar(s[i])
  {
    seq(|s|, i requires 0 <= i < |s| => LowerChar(s[i]))
  }

  predicate IsLower(s: string) {
    forall i :: 0 <= i < |s| ==> !('A' <= s[i] <= 'Z')
  }

  lemma ToLowerIsLower(s: string)
    ensures IsLower(ToLower(s))
    ensures Trimmed(s) ==> Trimmed(ToLower(s))
  {
  }

  lemma ToLowerOfLower(s: string)
    requires IsLower(s)
    ensures ToLower(s) == s
  {
  }

  // ---------------------------------------------------------------------
  // Numbers: fmt's %d and %x, strconv.Atoi
  // ---------------------------------------------------------------------

  /** The lower-case digit of value `d`. */
  function DigitChar(d: nat): (c: char)
    requires d < 16
    ensures DigitValue(c) == d
  {
    if d < 10 then ('0' as int + d) as char else ('a' as int + d - 10) as char
  }

  /** The value of a lower-case hexadecimal digit, -1 for any other character. */
  function DigitValue(c: char): (v: int)
    ensures -1 <= v < 16
  {
    if '0' <= c <= '9' then c as int - '0' as int
    else if 'a' <= c <= 'f' then c as int - 'a' as int + 10
    else -1
  }

  predicate AllDigits(s: string, base: nat) {
    forall i :: 0 <= i < |s| ==> 0 <= DigitValue(s[i]) < base
  }

  /** The numeral of `n` in `base`, most significant digit first, no leading zeros. */
  function FormatNat(n: nat, base: nat): (s: string)
    requires 2 <= base <= 16
    ensures |s| >= 1 && AllDigits(s, base)
    decreases n
  {
    if n < base then [DigitChar(n)]
    else FormatNat(n / base, base) + [DigitChar(n % base)]
  }

  /** The value of a numeral in `base`. */
  function ValueOf(s: string, base: nat): nat
    requires 2 <= base <= 16 && AllDigits(s, base)
  {
    if s == "" then 0
    else ValueOf(s[..|s| - 1], base) * base + DigitValue(s[|s| - 1])
  }

  function ParseNat(s: string, base: nat): Option<nat>
    requires 2 <= base <= 16
  {
    if s != "" && AllDigits(s, base) then Some(ValueOf(s, base)) else None
  }

  lemma {:induction false} FormatNatRoundTrip(n: nat, base: nat)
    requires 2 <= base <= 16
    ensures ParseNat(FormatNat(n, base), base) == Some(n)
  {
    ValueOfFormatNat(n, base);
  }

  lemma DivMod(n: nat, base: nat)
    requires base >= 2
    ensures n == (n / base) * base + n % base
    ensures 0 <= n % base < base
    ensures n >= base ==> 0 < n / base < n
  {
  }

  lemma {:induction false} ValueOfFormatNat(n: nat, base: nat)
    requires 2 <= base <= 16
    ensures ValueOf(FormatNat(n, base), base) == n
    decreases n
  {
    var s := FormatNat(n, base);
    if n < base {
      assert s[..|s| - 1] == "";
    } else {
      DivMod(n, base);
      var q := n / base;
      var r := n % base;
      var p := FormatNat(q, base);
      ValueOfFormatNat(q, base);
      assert s[..|s| - 1] == p;
      assert DigitValue(s[|s| - 1]) == r;
    }
  }

  /** fmt.Sprintf("%d", n). */
  function Itoa(n: int): string {
    if n < 0 then "-" + FormatNat(-n, 10) else FormatNat(n, 10)
  }

  /** fmt.Sprintf("%x", n) for a length. */
  function Hex(n: nat): string {
    FormatNat(n, 16)
  }

  /** strconv.Atoi: an optional sign followed by at least one decimal digit. */
  function Atoi(s: string): Option<int> {
    if s == "" then None
    else if s[0] == '-' || s[0] == '+' then
      match ParseNat(s[1..], 10)
      case None => None
      case Some(v) => var i: int := v; Some(if s[0] == '-' then -i else i)
    else
      match ParseNat(s, 10)
      case None => None
      case Some(v) => var i: int := v; Some(i)
  }

  /** The decimal rendering of every integer reads back as the same integer. */
  lemma {:induction false} AtoiItoa(n: int)
    ensures Atoi(Itoa(n)) == Some(n)
  {
    if n < 0 {
      AtoiNegative(-n);
    } else {
      AtoiUnsigned(n);
    }
  }

  lemma AtoiUnsigned(v: nat)
    ensures Atoi(FormatNat(v, 10)) == Some(v)
  {
    var s := FormatNat(v, 10);
    FormatNatRoundTrip(v, 10);
    assert 0 <= DigitValue(s[0]) < 10;
  }

  lemma AtoiNegative(v: nat)
    ensures Atoi("-" + FormatNat(v, 10)) == Some(-(v as int))
  {
    var s := "-" + FormatNat(v, 10);
    FormatNatRoundTrip(v, 10);
    assert s[1..] == FormatNat(v, 10);
  }

  /** Every character of a decimal numeral is a digit, so none is a space, a CR, a colon or a separator. */
  lemma ItoaChars(n: int)
    ensures forall i :: 0 <= i < |Itoa(n)| ==> Itoa(n)[i] == '-' || '0' <= Itoa(n)[i] <= '9'
  {
    var d := FormatNat(if n < 0 then -n else n, 10);
    assert forall i :: 0 <= i < |d| ==> '0' <= d[i] <= '9' by {
      forall i | 0 <= i < |d| ensures '0' <= d[i] <= '9' {
        assert 0 <= DigitValue(d[i]) < 10;
      }
    }
  }

  /** A decimal numeral has no white space to trim. */
  lemma ItoaTrimmed(n: int)
    ensures TrimSpace(Itoa(n)) == Itoa(n)
  {
    ItoaChars(n);
    var s := Itoa(n);
    assert |s| > 0;
    assert Trimmed(s);
    TrimSpaceOfTrimmed(s);
  }

  // ---------------------------------------------------------------------
  // Concatenation of many pieces
  // ---------------------------------------------------------------------

  function Concat(ss: seq<string>): string {
    if |ss| == 0 then "" else ss[0] + Concat(ss[1..])
  }

  lemma {:induction false} ConcatAppend(ss: seq<string>, t: string)
    ensures Concat(ss + [t]) == Concat(ss) + t
  {
    if |ss| > 0 {
      assert (ss + [t])[1..] == ss[1..] + [t];
      ConcatAppend(ss[1..], t);
    }
  }

  /** Concatenation regrouped; stated once so that long proofs need not rediscover it. */
  lemma Regroup(a: string, b: string, c: string)
    ensures (a + b) + c == a + (b + c)
  {
  }

  /** Dropping i and then j characters drops i + j. */
  lemma DropDrop(s: string, i: nat, j: nat)
    requires i + j <= |s|
    ensures s[i..][j..] == s[i + j..]
  {
  }
}
