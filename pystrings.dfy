/**
 * The Python string built-ins that helpfuncs.py relies on, on strings
 * as sequences of characters:
 *   str.split()        -- Words
 *   str.split(sep)     -- Split
 *   str.find(sub)      -- Find (only as the search inside Split)
 *   str.strip(c)       -- Strip (for a single character c)
 *   sep.join(parts)    -- Join (never called by helpfuncs.py; only the inverse
 *                         used to state the round trips below)
 */
module PyStrings {
  import opened Wrappers

  /** The characters that str.split() with no argument treats as whitespace. */
  predicate IsSpace(c: char) {
    || c in {' ', '\t', '\n', '\r', '\U{0B}', '\U{0C}', '\U{1C}', '\U{1D}', '\U{1E}', '\U{1F}', '\U{85}', '\U{A0}'}
    || c in {'\U{1680}', '\U{2028}', '\U{2029}', '\U{202F}', '\U{205F}', '\U{3000}'}
    || ('\U{2000}' <= c <= '\U{200A}')
  }

  predicate NoSpace(s: string) {
    forall i :: 0 <= i < |s| ==> !IsSpace(s[i])
  }

  /** Length of the longest prefix of s that holds no whitespace. */
  function WordLen(s: string): (n: nat)
    ensures n <= |s|
    ensures NoSpace(s[..n])
    ensures n < |s| ==> IsSpace(s[n])
  {
    if s == [] || IsSpace(s[0]) then 0
    else
      1 + WordLen(s[1..])
  }

  /** str.split() with no argument: the maximal runs of non-whitespace, in order. */
  function Words(s: string): (ws: seq<string>)
    ensures forall k :: 0 <= k < |ws| ==> ws[k] != [] && NoSpace(ws[k])
    decreases |s|
  {
    if s == [] then []
    else if IsSpace(s[0]) then Words(s[1..])
    else
      var n := WordLen(s);
      [s[..n]] + Words(s[n..])
  }

  /** All strings of ss, one after the other. */
  function Concat(ss: seq<string>): string {
    if ss == [] then [] else ss[0] + Concat(ss[1..])
  }

  /** s with every whitespace character removed. */
  function RemoveSpaces(s: string): string {
    if s == [] then [] else (if IsSpace(s[0]) then [] else [s[0]]) + RemoveSpaces(s[1..])
  }

  /** sep.join(ss). */
  function Join(ss: seq<string>, sep: string): string {
    if ss == [] then []
    else if |ss| == 1 then ss[0]
    else ss[0] + sep + Join(ss[1..], sep)
  }

  lemma {:induction false} RemoveSpacesAppend(a: string, b: string)
    ensures RemoveSpaces(a + b) == RemoveSpaces(a) + RemoveSpaces(b)
  {
    if a == [] {
      assert a + b == b;
    } else {
      var x := if IsSpace(a[0]) then [] else [a[0]];
      assert (a + b)[0] == a[0];
      assert (a + b)[1..] == a[1..] + b;
      assert RemoveSpaces(a + b) == x + RemoveSpaces(a[1..] + b);
      RemoveSpacesAppend(a[1..], b);
      assert RemoveSpaces(a) == x + RemoveSpaces(a[1..]);
    }
  }

  lemma {:induction false} RemoveSpacesOfWord(a: string)
    requires NoSpace(a)
    ensures RemoveSpaces(a) == a
  {
    if a != [] {
      RemoveSpacesOfWord(a[1..]);
    }
  }

  /** Splitting on whitespace loses exactly the whitespace: no other character is dropped, added or moved. */
  lemma {:induction false} WordsKeepText(s: string)
    ensures Concat(Words(s)) == RemoveSpaces(s)
    decreases |s|
  {
    if s == [] {
    } else if IsSpace(s[0]) {
      WordsKeepText(s[1..]);
    } else {
      var n := WordLen(s);
      WordsKeepText(s[n..]);
      var ws := Words(s);
      assert ws == [s[..n]] + Words(s[n..]);
      assert ws[1..] == Words(s[n..]);
      assert s == s[..n] + s[n..];
      RemoveSpacesAppend(s[..n], s[n..]);
      RemoveSpacesOfWord(s[..n]);
    }
  }

  /** WordLen is the only length whose prefix holds no whitespace and that ends at whitespace or at the end. */
  lemma {:induction false} WordLenUnique(s: string, m: nat)
    requires m <= |s| && NoSpace(s[..m])
    requires m < |s| ==> IsSpace(s[m])
    ensures WordLen(s) == m
  {
    if m > 0 {
      assert s[..m][0] == s[0];
      assert s[1..][..m - 1] == s[..m][1..];
      WordLenUnique(s[1..], m - 1);
    }
  }

  /** A word followed by whitespace is cut exactly at its end. */
  lemma WordLenOfWord(w: string, rest: string)
    requires NoSpace(w)
    requires rest == [] || IsSpace(rest[0])
    ensures WordLen(w + rest) == |w|
  {
    var s := w + rest;
    assert s[..|w|] == w;
    WordLenUnique(s, |w|);
  }

  /** A non-empty run without whitespace is one word. */
  lemma WordsOfWord(w: string)
    requires w != [] && NoSpace(w)
    ensures Words(w) == [w]
  {
    WordLenOfWord(w, []);
    assert w + [] == w;
    assert w[..|w|] == w;
    assert w[|w|..] == [];
  }

  /**
   * Whitespace always separates words: the words of a + c + b, for a
   * whitespace character c, are the words of a followed by those of b,
   * however much whitespace a and b begin or end with.
   */
  lemma {:induction false} WordsAtSpace(a: string, c: char, b: string)
    requires IsSpace(c)
    ensures Words(a + [c] + b) == Words(a) + Words(b)
    decreases |a|
  {
    var s := a + [c] + b;
    if a == [] {
      assert s[1..] == b;
    } else if IsSpace(a[0]) {
      assert s[0] == a[0];
      assert s[1..] == a[1..] + [c] + b;
      WordsAtSpace(a[1..], c, b);
    } else {
      var n := WordLen(a);
      assert s[..n] == a[..n];
      assert n < |a| ==> s[n] == a[n];
      assert n == |a| ==> s[n] == c;
      WordLenUnique(s, n);
      assert s[n..] == a[n..] + [c] + b;
      WordsAtSpace(a[n..], c, b);
    }
  }

  /** Round trip: joining non-empty, whitespace-free words with one whitespace character and splitting again gives the words back. */
  lemma {:induction false} WordsOfJoin(ws: seq<string>, space: char)
    requires IsSpace(space)
    requires forall k :: 0 <= k < |ws| ==> ws[k] != [] && NoSpace(ws[k])
    ensures Words(Join(ws, [space])) == ws
  {
    if ws == [] {
    } else if |ws| == 1 {
      var w := ws[0];
      WordLenOfWord(w, []);
      assert w + [] == w;
      assert w[..|w|] == w;
    } else {
      var w := ws[0];
      var tail := Join(ws[1..], [space]);
      var s := w + [space] + tail;
      assert s == w + ([space] + tail);
      WordLenOfWord(w, [space] + tail);
      assert s[..|w|] == w;
      assert s[|w|..] == [space] + tail;
      assert ([space] + tail)[1..] == tail;
      WordsOfJoin(ws[1..], space);
    }
  }

  /** sub occurs in s starting at index i. */
  predicate OccursAt(s: string, sub: string, i: nat) {
    i + |sub| <= |s| && s[i..i + |sub|] == sub
  }

  /** The first occurrence of sub in s at or after index from. */
  function FindFrom(s: string, sub: string, from: nat): (r: Option<nat>)
    ensures r.Some? ==> from <= r.value && OccursAt(s, sub, r.value)
    ensures r.Some? ==> forall j :: from <= j < r.value ==> !OccursAt(s, sub, j)
    ensures r.None? ==> forall j :: from <= j ==> !OccursAt(s, sub, j)
    decreases |s| - from
  {
    if |s| < from + |sub| then None
    else if s[from..from + |sub|] == sub then Some(from)
    else FindFrom(s, sub, from + 1)
  }

  /** str.find(sub), with None for Python's -1. */
  function Find(s: string, sub: string): Option<nat> {
    FindFrom(s, sub, 0)
  }

  /** sub in s, for strings. */
  predicate Contains(s: string, sub: string) {
    exists j: nat | j <= |s| :: OccursAt(s, sub, j)
  }

  /** str.find succeeds exactly when the substring is there. */
  lemma FindIff(s: string, sub: string)
    ensures Find(s, sub).Some? <==> Contains(s, sub)
  {
    if Find(s, sub).Some? {
      assert OccursAt(s, sub, Find(s, sub).value);
    }
  }

  /** For a single character, substring search is character membership. */
  lemma ContainsChar(s: string, c: char)
    ensures Contains(s, [c]) <==> c in s
  {
    if c in s {
      var j :| 0 <= j < |s| && s[j] == c;
      assert OccursAt(s, [c], j);
    }
    if Contains(s, [c]) {
      var j: nat :| j <= |s| && OccursAt(s, [c], j);
      assert s[j..j + 1][0] == s[j];
    }
  }

  /** An occurrence inside a prefix of s is an occurrence in s. */
  lemma OccursInPrefix(s: string, sub: string, i: nat, j: nat)
    requires i <= |s| && OccursAt(s[..i], sub, j)
    ensures OccursAt(s, sub, j)
  {
    assert s[..i][j..j + |sub|] == s[j..j + |sub|];
  }

  /** The end of the piece of s that starts at from: the next occurrence of sep, or the end of s. */
  function PieceEndFrom(s: string, sep: string, from: nat): (e: nat)
    requires from <= |s|
    ensures from <= e <= |s|
    ensures e == |s| || OccursAt(s, sep, e)
    ensures NoneBetween(s, sep, from, e)
  {
    match FindFrom(s, sep, from)
    case None => |s|
    case Some(i) => i
  }

  /** No occurrence of sub in s starts in [from, to). */
  predicate NoneBetween(s: string, sub: string, from: nat, to: nat) {
    forall k :: from <= k < to ==> !OccursAt(s, sub, k)
  }

  /** The pieces of s[from..] between the non-overlapping occurrences of sep, scanning left to right. */
  function SplitFrom(s: string, sep: string, from: nat): (parts: seq<string>)
    requires sep != [] && from <= |s|
    ensures |parts| >= 1
    decreases |s| - from
  {
    match FindFrom(s, sep, from)
    case None => [s[from..]]
    case Some(i) => [s[from..i]] + SplitFrom(s, sep, i + |sep|)
  }

  /** str.split(sep). */
  function Split(s: string, sep: string): (parts: seq<string>)
    requires sep != []
    ensures |parts| >= 1
  {
    SplitFrom(s, sep, 0)
  }

  /** The first piece runs from from to the next sep, or to the end. */
  lemma FirstPieceFrom(s: string, sep: string, from: nat)
    requires sep != [] && from <= |s|
    ensures SplitFrom(s, sep, from)[0] == s[from..PieceEndFrom(s, sep, from)]
    ensures FindFrom(s, sep, from).Some? <==> |SplitFrom(s, sep, from)| >= 2
  {
  }

  /** After the first piece come the pieces of what follows its sep. */
  lemma RestPiecesFrom(s: string, sep: string, from: nat)
    requires sep != [] && from <= |s| && FindFrom(s, sep, from).Some?
    ensures var e := FindFrom(s, sep, from).value;
      SplitFrom(s, sep, from)[1..] == SplitFrom(s, sep, e + |sep|)
  {
  }

  /** A piece that reaches no further than the next sep holds no sep. */
  lemma PieceFree(s: string, sep: string, from: nat, e: nat)
    requires sep != [] && from <= e <= |s| && NoneBetween(s, sep, from, e)
    ensures !Contains(s[from..e], sep)
  {
    if Contains(s[from..e], sep) {
      var j: nat :| j <= |s[from..e]| && OccursAt(s[from..e], sep, j);
      OccursInInfix(s, from, e, sep, j);
    }
  }

  /** No piece of str.split(sep) holds sep. */
  lemma {:induction false} SplitPiecesFree(s: string, sep: string, from: nat)
    requires sep != [] && from <= |s|
    ensures forall k :: 0 <= k < |SplitFrom(s, sep, from)| ==> !Contains(SplitFrom(s, sep, from)[k], sep)
    decreases |s| - from
  {
    var parts := SplitFrom(s, sep, from);
    FirstPieceFrom(s, sep, from);
    PieceFree(s, sep, from, PieceEndFrom(s, sep, from));
    if FindFrom(s, sep, from).Some? {
      var e := FindFrom(s, sep, from).value;
      RestPiecesFrom(s, sep, from);
      SplitPiecesFree(s, sep, e + |sep|);
      forall k | 1 <= k < |parts| ensures !Contains(parts[k], sep) {
        assert parts[k] == parts[1..][k - 1];
      }
    }
  }

  /** There is a second piece exactly when sep occurs. */
  lemma SplitCount(s: string, sep: string)
    requires sep != []
    ensures |Split(s, sep)| >= 2 <==> Contains(s, sep)
  {
    FindIff(s, sep);
    FirstPieceFrom(s, sep, 0);
  }

  /** No occurrence of sub in s starts before index i. */
  predicate NoneBefore(s: string, sub: string, i: nat) {
    NoneBetween(s, sub, 0, i)
  }

  /** p sits in s at start, and the end of s or an occurrence of sep follows it. */
  predicate PieceAt(s: string, sep: string, start: nat, p: string) {
    && start + |p| <= |s| && s[start..start + |p|] == p
    && (start + |p| == |s| || OccursAt(s, sep, start + |p|))
  }

  /** p sits in s at start, and the end of s, a sep or a cut follows it. */
  predicate PieceAtEither(s: string, sep: string, cut: string, start: nat, p: string) {
    && start + |p| <= |s| && s[start..start + |p|] == p
    && (start + |p| == |s| || OccursAt(s, sep, start + |p|) || OccursAt(s, cut, start + |p|))
  }

  /** The first piece of s[from..] sits at from, holds no sep and ends at the first sep from from, or at the end. */
  lemma FirstPieceAt(s: string, sep: string, from: nat)
    requires sep != [] && from <= |s|
    ensures PieceAt(s, sep, from, SplitFrom(s, sep, from)[0])
    ensures NoneBetween(s, sep, from, from + |SplitFrom(s, sep, from)[0]|)
    ensures !Contains(SplitFrom(s, sep, from)[0], sep)
  {
    FirstPieceFrom(s, sep, from);
    var e := PieceEndFrom(s, sep, from);
    PieceFree(s, sep, from, e);
    assert from + |s[from..e]| == e;
  }

  /** The first piece of str.split(sep) begins the string and ends at the first sep, or at the end; no sep starts inside it. */
  lemma FirstPiece(s: string, sep: string)
    requires sep != []
    ensures PieceAt(s, sep, 0, Split(s, sep)[0]) && !Contains(Split(s, sep)[0], sep)
    ensures NoneBetween(s, sep, 0, |Split(s, sep)[0]|)
  {
    FirstPieceAt(s, sep, 0);
  }

  /** The second piece of s[from..] starts right after the first sep and ends at the next sep, or at the end; no sep starts inside it. */
  lemma SecondPieceAt(s: string, sep: string, from: nat)
    requires sep != [] && from <= |s| && FindFrom(s, sep, from).Some?
    ensures |SplitFrom(s, sep, from)| >= 2
    ensures PieceAt(s, sep, FindFrom(s, sep, from).value + |sep|, SplitFrom(s, sep, from)[1])
    ensures var start := FindFrom(s, sep, from).value + |sep|;
      NoneBetween(s, sep, start, start + |SplitFrom(s, sep, from)[1]|)
    ensures !Contains(SplitFrom(s, sep, from)[1], sep)
  {
    var start := FindFrom(s, sep, from).value + |sep|;
    RestPiecesFrom(s, sep, from);
    FirstPieceAt(s, sep, start);
    assert SplitFrom(s, sep, from)[1] == SplitFrom(s, sep, start)[0];
  }

  /**
   * The second piece of str.split(sep): the first piece is everything
   * before the first sep, and the second starts right after it and ends
   * at the next sep, or at the end: no sep starts inside it.
   */
  lemma SecondPiece(s: string, sep: string)
    requires sep != [] && Contains(s, sep)
    ensures |Split(s, sep)| >= 2
    ensures var i := Find(s, sep).value;
      var p := Split(s, sep)[1];
      && NoneBefore(s, sep, i) && OccursAt(s, sep, i) && Split(s, sep)[0] == s[..i]
      && PieceAt(s, sep, i + |sep|, p) && !Contains(p, sep)
      && NoneBetween(s, sep, i + |sep|, i + |sep| + |p|)
  {
    FindIff(s, sep);
    FirstPieceBefore(s, sep);
    SecondPieceAt(s, sep, 0);
  }

  /** When sep occurs, the first piece is everything before its first occurrence. */
  lemma FirstPieceBefore(s: string, sep: string)
    requires sep != [] && Find(s, sep).Some?
    ensures Split(s, sep)[0] == s[..Find(s, sep).value]
  {
    FirstPieceFrom(s, sep, 0);
    assert s[0..Find(s, sep).value] == s[..Find(s, sep).value];
  }

  /** The first two pieces of str.split(sep), with the sep between them, begin s; the end of s or a sep follows them. */
  lemma FirstTwoPieces(s: string, sep: string)
    requires sep != [] && |Split(s, sep)| >= 2
    ensures PieceAt(s, sep, 0, Split(s, sep)[0] + sep + Split(s, sep)[1])
  {
    SplitCount(s, sep);
    SecondPiece(s, sep);
    var i := Find(s, sep).value;
    var a, b := Split(s, sep)[0], Split(s, sep)[1];
    var n := i + |sep| + |b|;
    assert s[..n] == s[..i] + s[i..i + |sep|] + s[i + |sep|..n];
    assert s[0..n] == s[..n];
  }

  /** The piece from from ends at q when no c stands in [from, q) and q is the end or holds a c. */
  lemma PieceEndAtChar(s: string, c: char, from: nat, q: nat)
    requires from <= q <= |s|
    requires forall k :: from <= k < q ==> s[k] != c
    requires q == |s| || s[q] == c
    ensures PieceEndFrom(s, [c], from) == q
  {
    var e := PieceEndFrom(s, [c], from);
    if q < |s| {
      assert OccursAt(s, [c], q) by {
        assert s[q..q + 1] == [s[q]];
      }
    }
    if e < |s| {
      assert s[e] == c by {
        assert s[e..e + 1][0] == s[e];
      }
    }
  }

  /** Splitting a + c + b + rest on the character c, when a and b hold no c and rest is empty or starts with c. */
  lemma SplitOnChar(s: string, c: char, a: string, b: string, rest: string)
    requires s == a + [c] + b + rest
    requires c !in a && c !in b && (rest == [] || rest[0] == c)
    ensures |Split(s, [c])| >= 2 && Split(s, [c])[0] == a && Split(s, [c])[1] == b
  {
    var start, q := |a| + 1, |a| + 1 + |b|;
    assert forall k :: 0 <= k < |a| ==> s[k] == a[k];
    assert forall k :: start <= k < q ==> s[k] == b[k - start];
    assert s[|a|] == c;
    assert q < |s| ==> s[q] == rest[0];
    PieceEndAtChar(s, c, 0, |a|);
    FirstPieceFrom(s, [c], 0);
    RestPiecesFrom(s, [c], 0);
    PieceEndAtChar(s, c, start, q);
    FirstPieceFrom(s, [c], start);
    assert s[0..|a|] == a;
    assert s[start..q] == b;
    assert Split(s, [c])[1] == SplitFrom(s, [c], 0)[1..][0];
  }

  /** A prefix of a string without sep holds no sep either. */
  lemma NoOccurrenceInPrefix(s: string, sep: string, n: nat)
    requires n <= |s| && !Contains(s, sep)
    ensures !Contains(s[..n], sep)
  {
    if Contains(s[..n], sep) {
      var j: nat :| OccursAt(s[..n], sep, j);
      OccursInPrefix(s, sep, n, j);
    }
  }

  /** An occurrence inside an infix of s is an occurrence in s, shifted by where the infix starts. */
  lemma OccursInInfix(s: string, a: nat, b: nat, sub: string, k: nat)
    requires a <= b <= |s| && OccursAt(s[a..b], sub, k)
    ensures OccursAt(s, sub, a + k)
  {
    var n := |sub|;
    var inner, outer := s[a..b][k..k + n], s[a + k..a + k + n];
    forall m | 0 <= m < n ensures inner[m] == outer[m] {
      assert inner[m] == s[a..b][k + m] == s[a + k + m];
    }
    assert inner == outer;
  }

  /** Cutting a piece at the first cut: a prefix without sep (if the piece had none) that ends at the piece's end or at a cut. */
  lemma CutPiece(p: string, sep: string, cut: string)
    requires sep != [] && cut != [] && !Contains(p, sep)
    ensures var seg := Split(p, cut)[0];
      PieceAt(p, cut, 0, seg) && !Contains(seg, sep) && !Contains(seg, cut)
  {
    FirstPiece(p, cut);
    NoOccurrenceInPrefix(p, sep, |Split(p, cut)[0]|);
    assert p[..|Split(p, cut)[0]|] == p[0..|Split(p, cut)[0]|];
  }

  /** A piece at the front of a piece of s sits in s at the same place; a sep or a cut follows it. */
  lemma PrefixOfInfix(s: string, start: nat, p: string, seg: string, sep: string, cut: string)
    requires PieceAt(s, sep, start, p) && PieceAt(p, cut, 0, seg)
    ensures PieceAtEither(s, sep, cut, start, seg)
  {
    var pend := start + |p|;
    assert s[start..start + |seg|] == s[start..pend][..|seg|];
    if |seg| < |p| {
      OccursInInfix(s, start, pend, cut, |seg|);
    }
  }

  /**
   * The second piece of str.split(sep), cut at the first cut: it starts
   * right after the first sep, holds neither sep nor cut, and ends at the
   * end of s, at a sep or at a cut.
   */
  lemma SecondPieceCut(s: string, sep: string, cut: string)
    requires sep != [] && cut != [] && Contains(s, sep)
    ensures |Split(s, sep)| >= 2
    ensures var i := Find(s, sep).value;
      var seg := Split(Split(s, sep)[1], cut)[0];
      && NoneBefore(s, sep, i) && OccursAt(s, sep, i)
      && PieceAtEither(s, sep, cut, i + |sep|, seg)
      && !Contains(seg, sep) && !Contains(seg, cut)
  {
    SecondPiece(s, sep);
    CutPiece(Split(s, sep)[1], sep, cut);
    PrefixOfInfix(s, Find(s, sep).value + |sep|, Split(s, sep)[1], Split(Split(s, sep)[1], cut)[0], sep, cut);
  }

  /** Round trip: joining the pieces of str.split(sep) with sep gives back what was split. */
  lemma {:induction false} JoinSplitFrom(s: string, sep: string, from: nat)
    requires sep != [] && from <= |s|
    ensures Join(SplitFrom(s, sep, from), sep) == s[from..]
    decreases |s| - from
  {
    if FindFrom(s, sep, from).Some? {
      JoinSplitFrom(s, sep, FindFrom(s, sep, from).value + |sep|);
      JoinFirstPiece(s, sep, from);
    } else {
      assert SplitFrom(s, sep, from) == [s[from..]];
    }
  }

  /** If the pieces after the first sep join back to what follows it, all the pieces join back to s[from..]. */
  lemma JoinFirstPiece(s: string, sep: string, from: nat)
    requires sep != [] && from <= |s| && FindFrom(s, sep, from).Some?
    requires var e := FindFrom(s, sep, from).value;
      Join(SplitFrom(s, sep, e + |sep|), sep) == s[e + |sep|..]
    ensures Join(SplitFrom(s, sep, from), sep) == s[from..]
  {
    var e := FindFrom(s, sep, from).value;
    var head, rest := s[from..e], SplitFrom(s, sep, e + |sep|);
    assert SplitFrom(s, sep, from) == [head] + rest;
    JoinCons(head, rest, sep);
    SplitAround(s, from, e, sep);
    assert Join(SplitFrom(s, sep, from), sep) == head + sep + s[e + |sep|..];
  }

  /** s[from..] is what comes before an occurrence of sep at e, the sep, and what follows it. */
  lemma SplitAround(s: string, from: nat, e: nat, sep: string)
    requires from <= e && OccursAt(s, sep, e)
    ensures s[from..] == s[from..e] + sep + s[e + |sep|..]
  {
    assert s[from..] == s[from..e] + s[e..e + |sep|] + s[e + |sep|..];
  }

  /** Round trip: joining the pieces of str.split(sep) with sep gives back the string. */
  lemma JoinSplit(s: string, sep: string)
    requires sep != []
    ensures Join(Split(s, sep), sep) == s
  {
    JoinSplitFrom(s, sep, 0);
    assert s[0..] == s;
  }

  /** The round trip the other way fails for a separator that overlaps itself. */
  lemma SplitJoinNotInverse()
    ensures Join(["a", "b"], "aa") == "aaab"
    ensures Split("aaab", "aa") == ["", "ab"]
  {
    assert FindFrom("aaab", "aa", 0) == Some(0);
    assert FindFrom("aaab", "aa", 3) == None;
    assert "aaab"[2..4] == "ab";
    assert FindFrom("aaab", "aa", 2) == None;
    assert "aaab"[0..0] == "" && "aaab"[2..] == "ab";
  }

  lemma JoinCons(head: string, tail: seq<string>, sep: string)
    requires tail != []
    ensures Join([head] + tail, sep) == head + sep + Join(tail, sep)
  {
    assert ([head] + tail)[1..] == tail;
  }

  /** The number of leading c characters of s. */
  function LeadCount(s: string, c: char): (n: nat)
    ensures n <= |s|
    ensures forall k :: 0 <= k < n ==> s[k] == c
    ensures n < |s| ==> s[n] != c
  {
    if s != [] && s[0] == c then 1 + LeadCount(s[1..], c) else 0
  }

  /** The number of trailing c characters of s. */
  function TrailCount(s: string, c: char): (n: nat)
    ensures n <= |s|
    ensures forall k :: |s| - n <= k < |s| ==> s[k] == c
    ensures n < |s| ==> s[|s| - 1 - n] != c
  {
    if s != [] && s[|s| - 1] == c then 1 + TrailCount(s[..|s| - 1], c) else 0
  }

  /** str.strip(c): s without its leading and trailing c characters; what lies between is kept as it is. */
  function Strip(s: string, c: char): (r: string)
    ensures r == [] || (r[0] != c && r[|r| - 1] != c)
    ensures StrippedAt(s, c, r, LeadCount(s, c))
  {
    var i := LeadCount(s, c);
    var t := TrailCount(s[i..], c);
    assert forall k :: |s| - t <= k < |s| ==> s[k] == s[i..][k - i];
    s[i..|s| - t]
  }

  /** r stands in s at index i, and everything of s before and after it is the character c. */
  predicate StrippedAt(s: string, c: char, r: string, i: nat) {
    && i + |r| <= |s|
    && s[i..i + |r|] == r
    && (forall k :: 0 <= k < i ==> s[k] == c)
    && (forall k :: i + |r| <= k < |s| ==> s[k] == c)
  }

  /** Stripping c removes only c characters: any other character is in the result exactly when it is in s. */
  lemma StripKeepsOthers(s: string, c: char, d: char)
    requires c != d
    ensures d in Strip(s, c) <==> d in s
  {
    var r := Strip(s, c);
    var i := LeadCount(s, c);
    assert StrippedAt(s, c, r, i);
    if d in s {
      var k :| 0 <= k < |s| && s[k] == d;
      assert i <= k < i + |r|;
      assert r[k - i] == s[k];
    }
    if d in r {
      var k :| 0 <= k < |r| && r[k] == d;
      assert s[i + k] == r[k];
    }
  }
}
