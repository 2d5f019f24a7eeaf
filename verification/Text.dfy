/**
 * The pieces of Python's `str` that the tutor's core relies on, over
 * `string` (a sequence of Unicode scalar values):
 *   - `str.isspace` on one character, which both `strip()` and `split()`
 *     use to decide what whitespace is;
 *   - `strip()` with no argument;
 *   - `split(sep)` for a one-character separator (`"\n"`, `"T"`);
 *   - `split()` with no argument (runs of whitespace separate words);
 *   - `sub in s` and `s.split(sub)[-1]` for a non-empty substring.
 */
module Text {

  datatype Option<T> = None | Some(value: T)

  /** Python's `str.isspace` for one character: the characters whose
      bidirectional type is WS, B or S, or whose category is Zs. */
  predicate IsSpace(c: char) {
    || ('\t' <= c <= '\r')
    || ('\U{1C}' <= c <= ' ')
    || c == '\U{85}' || c == '\U{A0}' || c == '\U{1680}'
    || ('\U{2000}' <= c <= '\U{200A}')
    || c == '\U{2028}' || c == '\U{2029}' || c == '\U{202F}'
    || c == '\U{205F}' || c == '\U{3000}'
  }

  predicate AllSpace(s: string) {
    forall i :: 0 <= i < |s| ==> IsSpace(s[i])
  }

  predicate NoSpace(s: string) {
    forall i :: 0 <= i < |s| ==> !IsSpace(s[i])
  }

  /** Neither end of `s` is whitespace: what `strip()` produces. */
  predicate IsStripped(s: string) {
    s == [] || (!IsSpace(s[0]) && !IsSpace(s[|s| - 1]))
  }

  // ---------------------------------------------------------------------
  // strip()

  /** `s.lstrip()`: `s` without its leading whitespace. */
  function TrimStart(s: string): (r: string)
    ensures |r| <= |s|
    ensures r == [] || !IsSpace(r[0])
  {
    if s != [] && IsSpace(s[0]) then TrimStart(s[1..]) else s
  }

  /** What `lstrip()` removes is whitespace, and what it keeps is a suffix. */
  lemma {:induction false} TrimStartIsSuffix(s: string)
    ensures TrimStart(s) == s[|s| - |TrimStart(s)|..]
    ensures AllSpace(s[..|s| - |TrimStart(s)|])
  {
    if s != [] && IsSpace(s[0]) {
      TrimStartIsSuffix(s[1..]);
      assert s[1..][..|s| - 1 - |TrimStart(s)|] == s[1..|s| - |TrimStart(s)|];
    }
  }

  /** `s.rstrip()`: `s` without its trailing whitespace. */
  function TrimEnd(s: string): (r: string)
    ensures |r| <= |s|
    ensures r == [] || !IsSpace(r[|r| - 1])
  {
    if s != [] && IsSpace(s[|s| - 1]) then TrimEnd(s[..|s| - 1]) else s
  }

  /** What `rstrip()` removes is whitespace, and what it keeps is a prefix. */
  lemma {:induction false} TrimEndIsPrefix(s: string)
    ensures TrimEnd(s) == s[..|TrimEnd(s)|]
    ensures AllSpace(s[|TrimEnd(s)|..])
  {
    if s != [] && IsSpace(s[|s| - 1]) {
      TrimEndIsPrefix(s[..|s| - 1]);
      assert s[..|s| - 1][|TrimEnd(s)|..] == s[|TrimEnd(s)|..|s| - 1];
    }
  }

  /** `s.strip()`: `s` without its leading and trailing whitespace. */
  function Strip(s: string): (r: string)
    ensures IsStripped(r)
    ensures |r| <= |s|
  {
    TrimEndIsPrefix(TrimStart(s));
    TrimEnd(TrimStart(s))
  }

  /** `strip()` gives the empty string exactly for blank text. */
  lemma StripEmptyIffBlank(s: string)
    ensures Strip(s) == [] <==> AllSpace(s)
  {
    var t := TrimStart(s);
    TrimStartIsSuffix(s);
    TrimEndIsPrefix(t);
    if t == [] {
      assert s[..|s|] == s;
    }
  }

  /** A slice of a slice is a slice of the whole. */
  lemma SliceOfSlice(s: string, i: nat, j: nat, a: nat, b: nat)
    requires i <= j <= |s| && a <= b <= j - i
    ensures s[i..j][a..b] == s[i + a..i + b]
  {
    forall m | 0 <= m < b - a
      ensures s[i..j][a..b][m] == s[i + a..i + b][m]
    {
    }
  }

  /** `strip()` gives a slice of its argument. */
  lemma StripIsSlice(s: string)
    ensures var lead := |s| - |TrimStart(s)|;
      lead + |Strip(s)| <= |s| && Strip(s) == s[lead..lead + |Strip(s)|]
  {
    var t := TrimStart(s);
    var lead := |s| - |t|;
    var r := TrimEnd(t);
    TrimStartIsSuffix(s);
    TrimEndIsPrefix(t);
    assert s[lead..] == s[lead..|s|];
    SliceOfSlice(s, lead, |s|, 0, |r|);
  }

  /** A string that is already stripped is left as it is. */
  lemma StrippedIsFixed(s: string)
    requires IsStripped(s)
    ensures Strip(s) == s
  {
  }

  // ---------------------------------------------------------------------
  // split(sep) for a one-character separator, and its inverse join

  /** `sep.join(pieces)` for a one-character separator. */
  function JoinOn(pieces: seq<string>, sep: char): string {
    if pieces == [] then []
    else if |pieces| == 1 then pieces[0]
    else pieces[0] + [sep] + JoinOn(pieces[1..], sep)
  }

  /** Joining one more piece adds the separator and that piece at the end. */
  lemma {:induction false} JoinOnSnoc(pieces: seq<string>, piece: string, sep: char)
    requires pieces != []
    ensures JoinOn(pieces + [piece], sep) == JoinOn(pieces, sep) + [sep] + piece
    decreases |pieces|
  {
    var longer := pieces + [piece];
    assert longer[1..] == pieces[1..] + [piece];
    if |pieces| > 1 {
      JoinOnSnoc(pieces[1..], piece, sep);
    }
  }

  /** Joining non-empty stripped pieces gives non-empty stripped text: it
      starts with the first piece and ends with the last. */
  lemma {:induction false} JoinOfStripped(pieces: seq<string>, sep: char)
    requires pieces != []
    requires forall p <- pieces :: p != [] && IsStripped(p)
    ensures JoinOn(pieces, sep) != [] && IsStripped(JoinOn(pieces, sep))
    decreases |pieces|
  {
    assert pieces[0] in pieces;
    if |pieces| > 1 {
      assert forall p <- pieces[1..] :: p in pieces;
      JoinOfStripped(pieces[1..], sep);
      var whole := JoinOn(pieces, sep);
      var rest := JoinOn(pieces[1..], sep);
      assert whole == pieces[0] + [sep] + rest;
      assert whole[0] == pieces[0][0];
      assert whole[|whole| - 1] == rest[|rest| - 1];
    }
  }

  /** A trailing space on stripped text is exactly what `strip()` removes. */
  lemma StripTrailingSpace(s: string)
    requires IsStripped(s)
    ensures Strip(s + " ") == s
  {
    var t := s + " ";
    if s != [] {
      assert t[0] == s[0];
      assert TrimStart(t) == t;
      assert t[..|t| - 1] == s;
      assert TrimEnd(t) == TrimEnd(s) == s;
    } else {
      assert t[1..] == [];
    }
  }

  /** `s.split(sep)`: the maximal pieces between occurrences of `sep`;
      there is at least one piece, and none contains the separator. */
  function SplitOn(s: string, sep: char): (pieces: seq<string>)
    ensures pieces != []
    ensures forall i :: 0 <= i < |pieces| ==> sep !in pieces[i]
  {
    if s == [] then [[]]
    else
      var rest := SplitOn(s[1..], sep);
      if s[0] == sep then [[]] + rest
      else
        var pieces := [[s[0]] + rest[0]] + rest[1..];
        assert pieces[1..] == rest[1..];
        pieces
  }

  /** There is one more piece than there are separators. */
  lemma {:induction false} SplitCount(s: string, sep: char)
    ensures |SplitOn(s, sep)| == multiset(s)[sep] + 1
  {
    if s != [] {
      SplitCount(s[1..], sep);
      assert s == [s[0]] + s[1..];
      assert multiset(s) == multiset{s[0]} + multiset(s[1..]);
    }
  }

  /** One step of `SplitOn`: a leading separator starts a new piece, any
      other character joins the first piece. */
  lemma SplitOnCons(c: char, tail: string, sep: char)
    ensures var rest := SplitOn(tail, sep);
            SplitOn([c] + tail, sep) == if c == sep then [[]] + rest else [[c] + rest[0]] + rest[1..]
  {
    assert ([c] + tail)[1..] == tail;
  }

  /** One step of `JoinOn`. */
  lemma JoinOnCons(piece: string, pieces: seq<string>, sep: char)
    ensures JoinOn([piece] + pieces, sep) == if pieces == [] then piece else piece + [sep] + JoinOn(pieces, sep)
  {
    assert ([piece] + pieces)[1..] == pieces;
  }

  /** Putting a character in front of the first piece puts it in front of
      the joined text. */
  lemma JoinOnPrepend(c: char, pieces: seq<string>, sep: char)
    requires pieces != []
    ensures JoinOn([[c] + pieces[0]] + pieces[1..], sep) == [c] + JoinOn(pieces, sep)
  {
    var rest := pieces[1..];
    JoinOnCons([c] + pieces[0], rest, sep);
    assert pieces == [pieces[0]] + rest;
    JoinOnCons(pieces[0], rest, sep);
    if rest != [] {
      var later := JoinOn(rest, sep);
      assert [c] + pieces[0] + [sep] + later == [c] + (pieces[0] + [sep] + later);
    }
  }

  /** Joining the pieces back with the separator gives `s`. */
  lemma {:induction false} JoinOfSplit(s: string, sep: char)
    ensures JoinOn(SplitOn(s, sep), sep) == s
  {
    if s != [] {
      var c, tail := s[0], s[1..];
      assert s == [c] + tail;
      var rest := SplitOn(tail, sep);
      JoinOfSplit(tail, sep);
      SplitOnCons(c, tail, sep);
      if c == sep {
        JoinOnCons([], rest, sep);
      } else {
        JoinOnPrepend(c, rest, sep);
      }
    }
  }

  /** Splitting a join of separator-free pieces gives the pieces back, so
      `SplitOn` and `JoinOn` are inverse in both directions. */
  lemma {:induction false} SplitOfJoin(pieces: seq<string>, sep: char)
    requires pieces != []
    requires forall i :: 0 <= i < |pieces| ==> sep !in pieces[i]
    ensures SplitOn(JoinOn(pieces, sep), sep) == pieces
  {
    if |pieces| == 1 {
      SplitOfSepFree(pieces[0], sep);
    } else {
      SplitOfJoin(pieces[1..], sep);
      SplitAcross(pieces[0], JoinOn(pieces[1..], sep), sep);
      assert [pieces[0]] + pieces[1..] == pieces;
    }
  }

  lemma {:induction false} SplitOfSepFree(s: string, sep: char)
    requires sep !in s
    ensures SplitOn(s, sep) == [s]
  {
    if s != [] {
      SplitOfSepFree(s[1..], sep);
      assert [s[0]] + s[1..] == s;
    }
  }

  /** Splitting `a + [sep] + b`, where `a` holds no separator. */
  lemma {:induction false} SplitAcross(a: string, b: string, sep: char)
    requires sep !in a
    ensures SplitOn(a + [sep] + b, sep) == [a] + SplitOn(b, sep)
  {
    var s := a + [sep] + b;
    if a == [] {
      assert s[0] == sep && s[1..] == b;
    } else {
      assert s[0] == a[0] != sep;
      assert s[1..] == a[1..] + [sep] + b;
      SplitAcross(a[1..], b, sep);
      var rest := SplitOn(s[1..], sep);
      assert rest == [a[1..]] + SplitOn(b, sep);
      assert SplitOn(s, sep) == [[s[0]] + rest[0]] + rest[1..];
      assert [s[0]] + rest[0] == a;
      assert rest[1..] == SplitOn(b, sep);
    }
  }

  // ---------------------------------------------------------------------
  // split() with no argument

  /** The length of the leading run of non-whitespace characters of `s`. */
  function RunLength(s: string): (n: nat)
    ensures n <= |s| && NoSpace(s[..n])
    ensures n == |s| || IsSpace(s[n])
    ensures s != [] && !IsSpace(s[0]) ==> n > 0
  {
    if s == [] || IsSpace(s[0]) then 0
    else
      var n := RunLength(s[1..]);
      assert s[..n + 1] == [s[0]] + s[1..][..n];
      n + 1
  }

  /** `s.split()`: the maximal runs of non-whitespace characters, in order. */
  function Words(s: string): (ws: seq<string>)
    ensures forall w <- ws :: w != [] && NoSpace(w)
    decreases |s|
  {
    var t := TrimStart(s);
    if t == [] then []
    else
      var n := RunLength(t);
      assert n > 0 && |t[n..]| < |s|;
      var word := t[..n];
      assert word != [] && NoSpace(word);
      [word] + Words(t[n..])
  }

  /** `len(s.split())`. */
  function WordCount(s: string): nat {
    |Words(s)|
  }

  /** Reference definition of a word count: the number of positions where a
      non-whitespace character follows whitespace or the start of the text
      (`afterSpace` says whether the character before `s` was whitespace). */
  function RunStarts(s: string, afterSpace: bool): nat {
    if s == [] then 0
    else (if afterSpace && !IsSpace(s[0]) then 1 else 0) + RunStarts(s[1..], IsSpace(s[0]))
  }

  lemma {:induction false} RunStartsSkipsSpace(s: string, k: nat, afterSpace: bool)
    requires k <= |s| && AllSpace(s[..k])
    requires k > 0 || afterSpace
    ensures RunStarts(s, afterSpace) == RunStarts(s[k..], true)
  {
    if k > 0 {
      assert IsSpace(s[..k][0]);
      assert s[1..][..k - 1] == s[..k][1..];
      RunStartsSkipsSpace(s[1..], k - 1, true);
      assert s[1..][k - 1..] == s[k..];
    }
  }

  lemma {:induction false} RunStartsInsideWord(s: string, k: nat)
    requires k <= |s| && NoSpace(s[..k])
    ensures RunStarts(s, false) == RunStarts(s[k..], false)
  {
    if k > 0 {
      assert !IsSpace(s[..k][0]);
      assert s[1..][..k - 1] == s[..k][1..];
      RunStartsInsideWord(s[1..], k - 1);
      assert s[1..][k - 1..] == s[k..];
    }
  }

  /** `len(s.split())` is the number of maximal non-whitespace runs. */
  lemma {:induction false} WordCountIsRunCount(s: string)
    ensures WordCount(s) == RunStarts(s, true)
    decreases |s|
  {
    var t := TrimStart(s);
    TrimStartIsSuffix(s);
    RunStartsSkipsSpace(s, |s| - |t|, true);
    if t != [] {
      var n := RunLength(t);
      assert RunStarts(t, true) == 1 + RunStarts(t[1..], false);
      RunStartsInsideWord(t[1..], n - 1);
      assert t[1..][n - 1..] == t[n..];
      if n < |t| {
        RunStartsSkipsSpace(t[n..], 1, false);
        assert t[n..][1..] == t[n + 1..];
        RunStartsSkipsSpace(t[n..], 1, true);
      }
      WordCountIsRunCount(t[n..]);
    }
  }

  /** A text made only of whitespace (the empty text included) has no words. */
  lemma BlankHasNoWords(s: string)
    requires AllSpace(s)
    ensures WordCount(s) == 0
  {
    TrimStartIsSuffix(s);
  }

  // ---------------------------------------------------------------------
  // `sub in s` and `s.split(sub)[-1]`

  /** `sub` occurs in `s` starting at position `k`. */
  predicate OccursAt(s: string, sub: string, k: nat) {
    && k + |sub| <= |s|
    && forall m :: 0 <= m < |sub| ==> s[k + m] == sub[m]
  }

  /** An occurrence of `sub` in `s` ends at position `k`. */
  predicate EndsAt(s: string, sub: string, k: nat) {
    |sub| <= k && OccursAt(s, sub, k - |sub|)
  }

  /** `s.find(sub)`: a position where `sub` occurs (by `FindIsFirst`, the
      first one), or -1. */
  function Find(s: string, sub: string): (r: int)
    ensures -1 <= r
    ensures 0 <= r ==> OccursAt(s, sub, r)
    decreases |s|
  {
    if OccursAt(s, sub, 0) then 0
    else if |s| <= |sub| then -1
    else
      var i := Find(s[1..], sub);
      if i < 0 then -1 else i + 1
  }

  /** `Find` reports an occurrence whenever there is one, and never one
      later than any other. */
  lemma {:induction false} FindIsFirst(s: string, sub: string, k: nat)
    requires OccursAt(s, sub, k)
    ensures 0 <= Find(s, sub) <= k
    decreases |s|
  {
    if !OccursAt(s, sub, 0) {
      assert OccursAt(s[1..], sub, k - 1);
      FindIsFirst(s[1..], sub, k - 1);
    }
  }

  /** Python's `sub in s`. */
  predicate Contains(s: string, sub: string) {
    Find(s, sub) >= 0
  }

  /** An occurrence inside a slice is an occurrence in the whole string. */
  lemma SliceOccurrence(s: string, i: nat, j: nat, sub: string, k: nat)
    requires i <= j <= |s| && OccursAt(s[i..j], sub, k)
    ensures OccursAt(s, sub, i + k)
  {
    forall m | 0 <= m < |sub| ensures s[i + k + m] == sub[m] {
      assert s[i..j][k + m] == sub[m];
    }
  }

  /** A slice of a string holds no substring the whole string does not hold. */
  lemma SliceKeepsOccurrence(s: string, i: nat, j: nat, sub: string)
    requires i <= j <= |s|
    ensures Contains(s[i..j], sub) ==> Contains(s, sub)
  {
    if Contains(s[i..j], sub) {
      SliceOccurrence(s, i, j, sub, Find(s[i..j], sub));
      FindIsFirst(s, sub, i + Find(s[i..j], sub));
    }
  }

  /** Stripping never creates an occurrence of a substring. */
  lemma StripKeepsAbsence(s: string, sub: string)
    ensures Contains(Strip(s), sub) ==> Contains(s, sub)
  {
    StripIsSlice(s);
    var lead := |s| - |TrimStart(s)|;
    SliceKeepsOccurrence(s, lead, lead + |Strip(s)|, sub);
  }

  /** How `s.split(sub)` walks `s` for a non-empty `sub`: at position `pos`,
      in a piece that began at `cut`, an occurrence of `sub` ends the piece
      and the next one begins right after it; otherwise the scan moves on
      by one character. The result is where the last piece begins. */
  function CutFrom(s: string, sub: string, pos: nat, cut: nat): (r: nat)
    requires sub != [] && cut <= pos <= |s|
    ensures cut <= r <= |s|
    decreases |s| - pos
  {
    if pos + |sub| > |s| then cut
    else if OccursAt(s, sub, pos) then CutFrom(s, sub, pos + |sub|, pos + |sub|)
    else CutFrom(s, sub, pos + 1, cut)
  }

  /** Where `s.split(sub)[-1]` begins in `s`. */
  function LastCut(s: string, sub: string): (k: nat)
    requires sub != []
    ensures k <= |s|
  {
    CutFrom(s, sub, 0, 0)
  }

  /** Every piece after the first begins right after an occurrence. */
  lemma {:induction false} CutFromFollowsSub(s: string, sub: string, pos: nat, cut: nat)
    requires sub != [] && cut <= pos <= |s|
    requires cut > 0 ==> |sub| <= cut && OccursAt(s, sub, cut - |sub|)
    ensures var r := CutFrom(s, sub, pos, cut);
            r > 0 ==> |sub| <= r && OccursAt(s, sub, r - |sub|)
    decreases |s| - pos
  {
    if pos + |sub| > |s| {
    } else if OccursAt(s, sub, pos) {
      CutFromFollowsSub(s, sub, pos + |sub|, pos + |sub|);
    } else {
      CutFromFollowsSub(s, sub, pos + 1, cut);
    }
  }

  /** The last piece holds no occurrence: the scan has passed over every
      position from where that piece begins. */
  lemma {:induction false} CutFromLeavesNone(s: string, sub: string, pos: nat, cut: nat, k: nat)
    requires sub != [] && cut <= pos <= |s|
    requires forall q :: cut <= q < pos ==> !OccursAt(s, sub, q)
    requires CutFrom(s, sub, pos, cut) <= k
    ensures !OccursAt(s, sub, k)
    decreases |s| - pos
  {
    if pos + |sub| > |s| {
    } else if OccursAt(s, sub, pos) {
      CutFromLeavesNone(s, sub, pos + |sub|, pos + |sub|, k);
    } else {
      CutFromLeavesNone(s, sub, pos + 1, cut, k);
    }
  }

  /** The scan cannot skip an occurrence that has none before it. */
  lemma {:induction false} CutFromPassesFirst(s: string, sub: string, pos: nat, cut: nat, f: nat)
    requires sub != [] && cut <= pos <= f && OccursAt(s, sub, f)
    requires forall q :: pos <= q < f ==> !OccursAt(s, sub, q)
    ensures f + |sub| <= CutFrom(s, sub, pos, cut)
    decreases f - pos
  {
    if pos < f {
      CutFromPassesFirst(s, sub, pos + 1, cut, f);
    }
  }

  /** A cut lies right after an occurrence. */
  lemma LastCutFollowsSub(s: string, sub: string)
    requires sub != []
    ensures LastCut(s, sub) > 0 ==>
              |sub| <= LastCut(s, sub) && OccursAt(s, sub, LastCut(s, sub) - |sub|)
  {
    CutFromFollowsSub(s, sub, 0, 0);
  }

  /** Nothing is cut exactly when `sub` does not occur. */
  lemma LastCutIffContains(s: string, sub: string)
    requires sub != []
    ensures LastCut(s, sub) == 0 <==> !Contains(s, sub)
  {
    LastCutFollowsSub(s, sub);
    if LastCut(s, sub) > 0 {
      FindIsFirst(s, sub, LastCut(s, sub) - |sub|);
    }
    if Contains(s, sub) {
      LastCutPassesFirst(s, sub);
    }
  }

  /** The cut is no earlier than the end of the first occurrence. */
  lemma LastCutPassesFirst(s: string, sub: string)
    requires sub != [] && Contains(s, sub)
    ensures Find(s, sub) + |sub| <= LastCut(s, sub)
  {
    var f := Find(s, sub);
    forall q | 0 <= q < f ensures !OccursAt(s, sub, q) {
      if OccursAt(s, sub, q) {
        FindIsFirst(s, sub, q);
      }
    }
    CutFromPassesFirst(s, sub, 0, 0, f);
  }

  /** No occurrence is left after the cut. */
  lemma LastCutLeavesNone(s: string, sub: string)
    requires sub != []
    ensures !Contains(s[LastCut(s, sub)..], sub)
  {
    var c := LastCut(s, sub);
    if Contains(s[c..], sub) {
      var f := Find(s[c..], sub);
      SliceOccurrence(s, c, |s|, sub, f);
      CutFromLeavesNone(s, sub, 0, 0, c + f);
      assert false;
    }
  }

  /** The same scan as `CutFrom`, returning the last piece itself. */
  function PieceFrom(s: string, sub: string, pos: nat, cut: nat): string
    requires sub != [] && cut <= pos <= |s|
    decreases |s| - pos
  {
    if pos + |sub| > |s| then s[cut..]
    else if OccursAt(s, sub, pos) then PieceFrom(s, sub, pos + |sub|, pos + |sub|)
    else PieceFrom(s, sub, pos + 1, cut)
  }

  lemma {:induction false} PieceFromIsCut(s: string, sub: string, pos: nat, cut: nat)
    requires sub != [] && cut <= pos <= |s|
    ensures PieceFrom(s, sub, pos, cut) == s[CutFrom(s, sub, pos, cut)..]
    decreases |s| - pos
  {
    if pos + |sub| <= |s| {
      if OccursAt(s, sub, pos) {
        PieceFromIsCut(s, sub, pos + |sub|, pos + |sub|);
      } else {
        PieceFromIsCut(s, sub, pos + 1, cut);
      }
    }
  }

  /** `s.split(sub)[-1]` for a non-empty `sub`: a suffix of `s` that no
      longer contains `sub`, all of `s` when `sub` does not occur, and
      otherwise without anything up to the end of the first occurrence. */
  function LastPiece(s: string, sub: string): (r: string)
    requires sub != []
    ensures |r| <= |s|
    ensures !Contains(r, sub)
    ensures !Contains(s, sub) ==> r == s
    ensures Contains(s, sub) ==> |r| <= |s| - (Find(s, sub) + |sub|)
  {
    PieceFromIsCut(s, sub, 0, 0);
    LastCutIffContains(s, sub);
    LastCutLeavesNone(s, sub);
    if Contains(s, sub) then
      LastCutPassesFirst(s, sub);
      PieceFrom(s, sub, 0, 0)
    else
      PieceFrom(s, sub, 0, 0)
  }

  lemma LastPieceIsCut(s: string, sub: string)
    requires sub != []
    ensures LastPiece(s, sub) == s[LastCut(s, sub)..]
  {
    PieceFromIsCut(s, sub, 0, 0);
  }

  /** Which text `s.split(sub)[-1]` keeps: the suffix of `s` that directly
      follows an occurrence of `sub`, or all of `s` when `sub` does not
      occur. */
  lemma LastPieceFollowsSub(s: string, sub: string)
    requires sub != []
    ensures var r := LastPiece(s, sub);
            && r == s[|s| - |r|..]
            && (Contains(s, sub) ==> EndsAt(s, sub, |s| - |r|))
  {
    LastPieceIsCut(s, sub);
    LastCutFollowsSub(s, sub);
    LastCutIffContains(s, sub);
  }

  /** The last piece is a suffix of `s`, so it holds no substring that `s`
      does not hold. */
  lemma LastPieceKeepsAbsence(s: string, sub: string, other: string)
    requires sub != []
    ensures Contains(LastPiece(s, sub), other) ==> Contains(s, other)
  {
    LastPieceIsCut(s, sub);
    assert LastPiece(s, sub) == s[LastCut(s, sub)..|s|];
    SliceKeepsOccurrence(s, LastCut(s, sub), |s|, other);
  }

  /** Splitting on `first` and then on `second` also keeps a suffix. */
  lemma LastPieceTwiceIsSuffix(s: string, first: string, second: string)
    requires first != [] && second != []
    ensures var b := LastPiece(LastPiece(s, first), second);
            b == s[|s| - |b|..]
  {
    var a := LastPiece(s, first);
    var b := LastPiece(a, second);
    LastPieceFollowsSub(s, first);
    LastPieceFollowsSub(a, second);
    assert a[|a| - |b|..] == s[|s| - |b|..];
  }

  /** Both splits keep all of `s` exactly when neither substring occurs. */
  lemma LastPieceTwiceKeepsAll(s: string, first: string, second: string)
    requires first != [] && second != []
    ensures |LastPiece(LastPiece(s, first), second)| == |s| <==>
              !Contains(s, first) && !Contains(s, second)
  {
    var a := LastPiece(s, first);
    if !Contains(s, first) {
      assert a == s;
    }
  }

  /** An occurrence in a suffix of `s` is an occurrence in `s`. */
  lemma SuffixOccurrence(s: string, t: string, sub: string, p: nat)
    requires |t| <= |s| && t == s[|s| - |t|..] && OccursAt(t, sub, p)
    ensures OccursAt(s, sub, |s| - |t| + p)
  {
    forall m | 0 <= m < |sub| ensures s[|s| - |t| + p + m] == sub[m] {
      assert t[p + m] == sub[m];
    }
  }

  /** After both splits, when `second` occurs in what the first split kept,
      the result directly follows an occurrence of `second` in `s`. */
  lemma LastPieceTwiceFollowsSecond(s: string, first: string, second: string)
    requires first != [] && second != []
    requires Contains(LastPiece(s, first), second)
    ensures var k := |s| - |LastPiece(LastPiece(s, first), second)|;
            EndsAt(s, second, k)
  {
    var a := LastPiece(s, first);
    var b := LastPiece(a, second);
    LastPieceFollowsSub(s, first);
    LastPieceFollowsSub(a, second);
    SuffixOccurrence(s, a, second, |a| - |b| - |second|);
  }

  /** When the two splits drop anything, what they keep directly follows an
      occurrence of one of the two substrings. */
  lemma LastPieceTwiceFollows(s: string, first: string, second: string)
    requires first != [] && second != []
    ensures var k := |s| - |LastPiece(LastPiece(s, first), second)|;
            k > 0 ==>
              EndsAt(s, first, k) || EndsAt(s, second, k)
  {
    var a := LastPiece(s, first);
    if Contains(a, second) {
      LastPieceTwiceFollowsSecond(s, first, second);
    } else if Contains(s, first) {
      LastPieceFollowsSub(s, first);
    }
  }
}
