/**
  The handful of Go `strings` functions the redirect matcher is built on,
  over `string` (= `seq<char>`): `Index`, `Contains`, `IndexByte`, `HasSuffix`,
  `Trim` with a one-character cut set, `Split` with a one-character separator,
  `ReplaceAll` and `Count`. Each comes with the contract or lemma that
  characterises it independently of its recursive definition.
 */
module GoStrings {

  /** `t` occurs in `s` starting at position `i`. */
  predicate OccursAt(s: string, t: string, i: int) {
    0 <= i && i + |t| <= |s| && s[i..i + |t|] == t
  }

  /**
    The first occurrence of `t` in `s` at or after position `i`, or -1: the
    scan strings.Index performs from a start offset.
   */
  function IndexFrom(s: string, t: string, i: nat): (r: int)
    requires i <= |s|
    ensures r == -1 || (i <= r && OccursAt(s, t, r))
    ensures r >= 0 ==> forall j :: i <= j < r ==> !OccursAt(s, t, j)
    ensures r == -1 ==> forall j :: i <= j ==> !OccursAt(s, t, j)
    decreases |s| - i
  {
    if i + |t| > |s| then -1
    else if OccursAt(s, t, i) then i
    else IndexFrom(s, t, i + 1)
  }

  /** strings.Index: the position of the first occurrence of `t` in `s`, or -1. */
  function Index(s: string, t: string): (r: int)
    ensures r == -1 || OccursAt(s, t, r)
    ensures r >= 0 ==> forall j :: 0 <= j < r ==> !OccursAt(s, t, j)
    ensures r == -1 ==> forall j :: !OccursAt(s, t, j)
  {
    IndexFrom(s, t, 0)
  }

  /** strings.Contains. */
  predicate Contains(s: string, t: string) {
    Index(s, t) >= 0
  }

  /** Contains holds exactly when some occurrence exists. */
  lemma ContainsIff(s: string, t: string)
    ensures Contains(s, t) <==> exists i :: OccursAt(s, t, i)
  {
  }

  /** A string contains each of its prefixes. */
  lemma ContainsPrefix(t: string, rest: string)
    ensures Contains(t + rest, t)
  {
    assert OccursAt(t + rest, t, 0);
  }

  /** strings.HasSuffix. */
  predicate HasSuffix(s: string, t: string) {
    |t| <= |s| && s[|s| - |t|..] == t
  }

  /** strings.IndexByte: the position of the first `c` in `s`, or -1. */
  function IndexByte(s: string, c: char): (r: int)
    ensures -1 <= r < |s|
    ensures r == -1 <==> c !in s
    ensures r >= 0 ==> s[r] == c && forall k :: 0 <= k < r ==> s[k] != c
    decreases |s|
  {
    if |s| == 0 then -1
    else if s[0] == c then 0
    else
      var k := IndexByte(s[1..], c);
      if k < 0 then -1 else k + 1
  }

  /** The number of leading copies of `c` in `s`. */
  function Leading(s: string, c: char): (n: nat)
    ensures n <= |s|
    ensures forall k :: 0 <= k < n ==> s[k] == c
    ensures n < |s| ==> s[n] != c
    decreases |s|
  {
    if |s| > 0 && s[0] == c then 1 + Leading(s[1..], c) else 0
  }

  /** The number of trailing copies of `c` in `s`. */
  function Trailing(s: string, c: char): (n: nat)
    ensures n <= |s|
    ensures forall k :: |s| - n <= k < |s| ==> s[k] == c
    ensures n < |s| ==> s[|s| - 1 - n] != c
    decreases |s|
  {
    if |s| > 0 && s[|s| - 1] == c then 1 + Trailing(s[..|s| - 1], c) else 0
  }

  /**
    strings.Trim with a one-character cut set: the middle slice of `s` left
    after removing every leading and every trailing `c`.
   */
  function Trim(s: string, c: char): (r: string)
    ensures |r| <= |s|
    ensures |r| > 0 ==> r[0] != c && r[|r| - 1] != c
  {
    var a := Leading(s, c);
    if a == |s| then [] else s[a..|s| - Trailing(s, c)]
  }

  /** `r` is the slice of `s` at `a`, and every character of `s` outside it is `c`. */
  predicate TrimmedAt(s: string, c: char, a: int, r: string) {
    0 <= a && a + |r| <= |s| && r == s[a..a + |r|] &&
    forall k :: 0 <= k < |s| && (k < a || a + |r| <= k) ==> s[k] == c
  }

  /**
    Trim keeps a contiguous slice and removes only copies of `c`; with the
    end-character clause of its contract, the slice is the maximal one.
   */
  lemma TrimShape(s: string, c: char)
    ensures exists a :: TrimmedAt(s, c, a, Trim(s, c))
  {
    var a := Leading(s, c);
    if a == |s| {
      assert TrimmedAt(s, c, 0, Trim(s, c));
    } else {
      assert TrimmedAt(s, c, a, Trim(s, c));
    }
  }

  /** Trimming twice is trimming once. */
  lemma TrimIdempotent(s: string, c: char)
    ensures Trim(Trim(s, c), c) == Trim(s, c)
  {
  }

  /** Joins `parts` with `c` between consecutive parts (strings.Join). */
  function Join(parts: seq<string>, c: char): string
    requires |parts| >= 1
  {
    if |parts| == 1 then parts[0] else parts[0] + [c] + Join(parts[1..], c)
  }

  /**
    strings.Split with a one-character separator: the maximal `c`-free pieces
    of `s`, in order; there is always at least one piece.
   */
  function Split(s: string, c: char): (parts: seq<string>)
    ensures |parts| >= 1
    decreases |s|
  {
    var i := IndexByte(s, c);
    if i < 0 then [s] else [s[..i]] + Split(s[i + 1..], c)
  }

  /** There is more than one piece exactly when `s` has a separator. */
  lemma SplitSingle(s: string, c: char)
    ensures |Split(s, c)| == 1 <==> c !in s
  {
  }

  /** No piece contains the separator. */
  lemma {:induction false} SplitPieces(s: string, c: char)
    ensures forall k :: 0 <= k < |Split(s, c)| ==> c !in Split(s, c)[k]
    decreases |s|
  {
    var i := IndexByte(s, c);
    if i >= 0 {
      SplitPieces(s[i + 1..], c);
      SplitCons(s, c);
    }
  }

  /** The pieces of `s` are its first piece followed by the pieces after the first separator. */
  lemma SplitCons(s: string, c: char)
    requires IndexByte(s, c) >= 0
    ensures var i := IndexByte(s, c);
      Split(s, c) == [s[..i]] + Split(s[i + 1..], c)
  {
  }

  /** Joining the pieces of a split gives the original string back. */
  lemma {:induction false} JoinSplit(s: string, c: char)
    ensures Join(Split(s, c), c) == s
    decreases |s|
  {
    var i := IndexByte(s, c);
    if i >= 0 {
      assert s == s[..i] + [c] + s[i + 1..];
      var parts := Split(s, c);
      var tail := Split(s[i + 1..], c);
      assert parts == [s[..i]] + tail;
      assert parts[1..] == tail;
      assert Join(parts, c) == s[..i] + [c] + Join(tail, c);
      JoinSplit(s[i + 1..], c);
    }
  }

  /** Splitting a join of separator-free pieces gives the pieces back. */
  lemma {:induction false} SplitJoin(parts: seq<string>, c: char)
    requires |parts| >= 1
    requires forall i :: 0 <= i < |parts| ==> c !in parts[i]
    ensures Split(Join(parts, c), c) == parts
    decreases |parts|
  {
    if |parts| > 1 {
      var p := parts[0];
      var tail := Join(parts[1..], c);
      var s := p + [c] + tail;
      assert s[..|p|] == p;
      assert s[|p| + 1..] == tail;
      assert s[|p|] == c;
      assert Join(parts, c) == s;
      var i := IndexByte(s, c);
      assert i == |p|;
      assert Split(s, c) == [p] + Split(tail, c);
      SplitJoin(parts[1..], c);
      assert parts == [p] + parts[1..];
    }
  }

  /** A suffix of a suffix of `s` is a suffix of `s`, preceded by the same character. */
  lemma SuffixOfSuffix(s: string, k: nat, t: string)
    requires k <= |s| && HasSuffix(s[k..], t)
    ensures HasSuffix(s, t)
    ensures |t| < |s| - k ==> s[|s| - |t| - 1] == s[k..][|s| - k - |t| - 1]
  {
    assert s[k..][|s| - k - |t|..] == s[|s| - |t|..];
  }

  /**
    The last piece of a split is the separator-free suffix of `s` that is
    preceded by a separator whenever there is more than one piece.
   */
  lemma {:induction false} SplitLastPart(s: string, c: char)
    ensures var parts := Split(s, c);
      var last := parts[|parts| - 1];
      HasSuffix(s, last) && c !in last && (|parts| > 1 ==> |last| < |s| && s[|s| - |last| - 1] == c)
    decreases |s|
  {
    var i := IndexByte(s, c);
    if i < 0 {
      assert s[|s| - |s|..] == s;
    } else {
      var rest := s[i + 1..];
      var tail := Split(rest, c);
      SplitLastPart(rest, c);
      var last := tail[|tail| - 1];
      SuffixOfSuffix(s, i + 1, last);
      assert Split(s, c) == [s[..i]] + tail;
    }
  }

  /** `w` occurs at `i` with a separator (or an end of `s`) on each side. */
  predicate Delimited(s: string, c: char, w: string, i: int) {
    && OccursAt(s, w, i)
    && (i == 0 || s[i - 1] == c)
    && (i + |w| == |s| || s[i + |w|] == c)
  }

  /** Delimited occurrences after a separator at `k` are those of the rest of the string. */
  lemma DelimitedShift(s: string, c: char, w: string, k: int, j: int)
    requires 0 <= k < |s| && s[k] == c && 0 <= j
    ensures Delimited(s[k + 1..], c, w, j) <==> Delimited(s, c, w, k + 1 + j)
  {
    var rest := s[k + 1..];
    if j + |w| <= |rest| {
      assert rest[j..j + |w|] == s[k + 1 + j..k + 1 + j + |w|];
      if j > 0 {
        assert rest[j - 1] == s[k + j];
      }
      if j + |w| < |rest| {
        assert rest[j + |w|] == s[k + 1 + j + |w|];
      }
    }
  }

  /** Every piece of a split occurs delimited in `s`. */
  lemma {:induction false} PieceIsDelimited(s: string, c: char, w: string)
    requires w in Split(s, c)
    ensures exists i :: Delimited(s, c, w, i)
    decreases |s|
  {
    var i0 := IndexByte(s, c);
    if i0 < 0 {
      assert s[0..|s|] == s;
      assert Delimited(s, c, w, 0);
    } else {
      var rest := s[i0 + 1..];
      assert Split(s, c) == [s[..i0]] + Split(rest, c);
      if w == s[..i0] {
        assert s[0..|w|] == w;
        assert Delimited(s, c, w, 0);
      } else {
        PieceIsDelimited(rest, c, w);
        var j :| Delimited(rest, c, w, j);
        DelimitedShift(s, c, w, i0, j);
      }
    }
  }

  /** A separator-free word delimited at the start is the first piece. */
  lemma DelimitedAtStart(s: string, c: char, w: string)
    requires c !in w && Delimited(s, c, w, 0) && IndexByte(s, c) >= 0
    ensures w in Split(s, c)
  {
    assert s[..|w|] == w;
    SplitHeadMember(s, c);
  }

  /** The part before the first separator is a piece. */
  lemma SplitHeadMember(s: string, c: char)
    requires IndexByte(s, c) >= 0
    ensures s[..IndexByte(s, c)] in Split(s, c)
  {
    assert Split(s, c)[0] == s[..IndexByte(s, c)];
  }

  /** In a separator-free string the only delimited word is the string itself. */
  lemma DelimitedNoSeparator(s: string, c: char, w: string, i: int)
    requires IndexByte(s, c) < 0 && Delimited(s, c, w, i)
    ensures w in Split(s, c)
  {
    assert i == 0 && i + |w| == |s|;
    assert s[0..|s|] == s;
    assert Split(s, c) == [s];
  }

  /** Every separator-free word occurring delimited in `s` is a piece of its split. */
  lemma {:induction false} DelimitedIsPiece(s: string, c: char, w: string, i: int)
    requires c !in w && Delimited(s, c, w, i)
    ensures w in Split(s, c)
    decreases |s|
  {
    if IndexByte(s, c) < 0 {
      DelimitedNoSeparator(s, c, w, i);
    } else if i == 0 {
      DelimitedAtStart(s, c, w);
    } else {
      DelimitedLater(s, c, w, i);
    }
  }

  /** The case of DelimitedIsPiece where the word starts after the first separator. */
  lemma {:induction false} DelimitedLater(s: string, c: char, w: string, i: int)
    requires c !in w && Delimited(s, c, w, i) && IndexByte(s, c) >= 0 && i > 0
    ensures w in Split(s, c)
    decreases |s|, 0
  {
    var i0 := IndexByte(s, c);
    assert i > i0;
    var rest := s[i0 + 1..];
    DelimitedShift(s, c, w, i0, i - i0 - 1);
    DelimitedIsPiece(rest, c, w, i - i0 - 1);
    SplitTailMember(s, c, w);
  }

  /** A piece of what follows the first separator is a piece of the whole. */
  lemma SplitTailMember(s: string, c: char, w: string)
    requires IndexByte(s, c) >= 0 && w in Split(s[IndexByte(s, c) + 1..], c)
    ensures w in Split(s, c)
  {
    var i0 := IndexByte(s, c);
    assert Split(s, c) == [s[..i0]] + Split(s[i0 + 1..], c);
  }

  /** A separator-free word is one of the pieces exactly when it occurs delimited. */
  lemma SplitMember(s: string, c: char, w: string)
    requires c !in w
    ensures w in Split(s, c) <==> exists i :: Delimited(s, c, w, i)
  {
    if w in Split(s, c) {
      PieceIsDelimited(s, c, w);
    }
    if i :| Delimited(s, c, w, i) {
      DelimitedIsPiece(s, c, w, i);
    }
  }

  /**
    strings.ReplaceAll for a non-empty pattern, from position `i` on: every
    leftmost non-overlapping occurrence of `pat` is replaced by `rep`.
   */
  function ReplaceFrom(s: string, pat: string, rep: string, i: nat): (r: string)
    requires |pat| > 0 && i <= |s|
    decreases |s| - i
  {
    if i + |pat| > |s| then s[i..]
    else if OccursAt(s, pat, i) then rep + ReplaceFrom(s, pat, rep, i + |pat|)
    else [s[i]] + ReplaceFrom(s, pat, rep, i + 1)
  }

  /** strings.ReplaceAll for a non-empty pattern. */
  function ReplaceAll(s: string, pat: string, rep: string): string
    requires |pat| > 0
  {
    ReplaceFrom(s, pat, rep, 0)
  }

  /** With no occurrence from `i` on, the rest of the string is copied unchanged. */
  lemma {:induction false} ReplaceFromAbsent(s: string, pat: string, rep: string, i: nat)
    requires |pat| > 0 && i <= |s|
    requires IndexFrom(s, pat, i) < 0
    ensures ReplaceFrom(s, pat, rep, i) == s[i..]
    decreases |s| - i
  {
    if i + |pat| <= |s| {
      assert !OccursAt(s, pat, i);
      ReplaceFromAbsent(s, pat, rep, i + 1);
      assert s[i..] == [s[i]] + s[i + 1..];
    }
  }

  /** A string without the pattern is left unchanged. */
  lemma ReplaceAllAbsent(s: string, pat: string, rep: string)
    requires |pat| > 0
    ensures !Contains(s, pat) ==> ReplaceAll(s, pat, rep) == s
  {
    if !Contains(s, pat) {
      ReplaceFromAbsent(s, pat, rep, 0);
    }
  }

  /**
    The Go formulation of the replacement loop: copy up to the next
    occurrence, emit the replacement, continue after the occurrence.
   */
  lemma {:induction false} ReplaceFromNext(s: string, pat: string, rep: string, i: nat)
    requires |pat| > 0 && i <= |s|
    requires IndexFrom(s, pat, i) >= 0
    ensures var j := IndexFrom(s, pat, i);
      ReplaceFrom(s, pat, rep, i) == s[i..j] + rep + ReplaceFrom(s, pat, rep, j + |pat|)
  {
    ReplaceFromUpTo(s, pat, rep, i, IndexFrom(s, pat, i));
  }

  /** ReplaceFromNext, stated for an explicit first occurrence `j` at or after `i`. */
  lemma {:induction false} ReplaceFromUpTo(s: string, pat: string, rep: string, i: nat, j: nat)
    requires |pat| > 0 && i <= j && OccursAt(s, pat, j)
    requires forall k :: i <= k < j ==> !OccursAt(s, pat, k)
    ensures ReplaceFrom(s, pat, rep, i) == s[i..j] + rep + ReplaceFrom(s, pat, rep, j + |pat|)
    decreases j - i
  {
    if j > i {
      ReplaceFromUpTo(s, pat, rep, i + 1, j);
      ReplaceFromSkip(s, pat, rep, i);
      ConsSplice(s, i, j, ReplaceFrom(s, pat, rep, i), ReplaceFrom(s, pat, rep, i + 1),
                 rep, ReplaceFrom(s, pat, rep, j + |pat|));
    }
  }

  lemma ReplaceFromSkip(s: string, pat: string, rep: string, i: nat)
    requires |pat| > 0 && i + |pat| <= |s| && !OccursAt(s, pat, i)
    ensures ReplaceFrom(s, pat, rep, i) == [s[i]] + ReplaceFrom(s, pat, rep, i + 1)
  {
  }

  lemma ConsSplice(s: string, i: nat, j: nat, r0: string, r1: string, rep: string, rest: string)
    requires i < j <= |s|
    requires r0 == [s[i]] + r1 && r1 == s[i + 1..j] + rep + rest
    ensures r0 == s[i..j] + rep + rest
  {
    assert s[i..j] == [s[i]] + s[i + 1..j];
  }

  /** Replacing a pattern by itself changes nothing. */
  lemma {:induction false} ReplaceFromSelf(s: string, pat: string, i: nat)
    requires |pat| > 0 && i <= |s|
    ensures ReplaceFrom(s, pat, pat, i) == s[i..]
    decreases |s| - i
  {
    if i + |pat| > |s| {
    } else if OccursAt(s, pat, i) {
      assert s[i..] == s[i..i + |pat|] + s[i + |pat|..];
      ReplaceFromSelf(s, pat, i + |pat|);
    } else {
      assert s[i..] == [s[i]] + s[i + 1..];
      ReplaceFromSelf(s, pat, i + 1);
    }
  }

  /** strings.Count for a non-empty pattern, from position `i` on. */
  function CountFrom(s: string, pat: string, i: nat): nat
    requires |pat| > 0 && i <= |s|
    decreases |s| - i
  {
    if i + |pat| > |s| then 0
    else if OccursAt(s, pat, i) then 1 + CountFrom(s, pat, i + |pat|)
    else CountFrom(s, pat, i + 1)
  }

  /** The count is zero exactly when there is no occurrence from `i` on. */
  lemma {:induction false} CountFromZero(s: string, pat: string, i: nat)
    requires |pat| > 0 && i <= |s|
    ensures CountFrom(s, pat, i) == 0 <==> IndexFrom(s, pat, i) < 0
    decreases |s| - i
  {
    if i + |pat| <= |s| && !OccursAt(s, pat, i) {
      CountFromZero(s, pat, i + 1);
    }
  }

  /** The arithmetic of one replaced occurrence. */
  lemma LengthStep(m: int, p: int, q: int, n: int, tail: int)
    requires tail == m - p + n * (q - p)
    ensures q + tail == m + (1 + n) * (q - p)
  {
  }

  /** Each replaced occurrence changes the length by |rep| - |pat|. */
  lemma {:induction false} ReplaceFromLength(s: string, pat: string, rep: string, i: nat)
    requires |pat| > 0 && i <= |s|
    ensures |ReplaceFrom(s, pat, rep, i)| == |s| - i + CountFrom(s, pat, i) * (|rep| - |pat|)
    decreases |s| - i
  {
    if i + |pat| > |s| {
    } else if OccursAt(s, pat, i) {
      ReplaceFromLength(s, pat, rep, i + |pat|);
      LengthStep(|s| - i, |pat|, |rep|, CountFrom(s, pat, i + |pat|),
                 |ReplaceFrom(s, pat, rep, i + |pat|)|);
    } else {
      ReplaceFromLength(s, pat, rep, i + 1);
    }
  }
}
