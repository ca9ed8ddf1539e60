/** Searching a stream in one pass, without going back over bytes once they have matched. */
module OnePassScan {
  import opened Bytes
  import opened Patterns

  /**
   * The one-pass scan: byte `i` is next and the last `m` bytes matched. A mismatch starts over at the mismatching
   * byte, not one past the failed start.
   */
  function Scan(text: seq<byte>, pattern: seq<byte>, i: nat, m: nat): Option<int>
    requires m <= |pattern|
    decreases if i <= |text| then |text| - i else 0, m
  {
    if m > 0 && m == |pattern| then Some(i - m)
    else if i >= |text| || m == |pattern| then None
    else if pattern[m] == text[i] then Scan(text, pattern, i + 1, m + 1)
    else if m > 0 then Scan(text, pattern, i, 0)
    else Scan(text, pattern, i + 1, 0)
  }

  /** One step of the scan. */
  lemma ScanStep(text: seq<byte>, pattern: seq<byte>, i: nat, m: nat)
    requires i < |text| && m < |pattern|
    ensures Scan(text, pattern, i, m) ==
            if pattern[m] == text[i] then Scan(text, pattern, i + 1, m + 1)
            else if m > 0 then Scan(text, pattern, i, 0)
            else Scan(text, pattern, i + 1, 0)
  {}

  /** What the scan finds is a genuine occurrence, and not one that starts before the current match. */
  lemma {:induction false} ScanIsSound(text: seq<byte>, pattern: seq<byte>, i: nat, m: nat)
    requires m <= |pattern| && m <= i <= |text| && text[i - m..i] == pattern[..m]
    ensures var r := Scan(text, pattern, i, m);
            r.Some? ==> OccursAt(text, pattern, r.value) && i - m <= r.value
    decreases |text| - i, m
  {
    if m == |pattern| {
    } else if i < |text| {
      if pattern[m] == text[i] {
        assert text[i - m..i + 1] == text[i - m..i] + [text[i]];
        assert pattern[..m + 1] == pattern[..m] + [pattern[m]];
        ScanIsSound(text, pattern, i + 1, m + 1);
      } else if m > 0 {
        ScanIsSound(text, pattern, i, 0);
      } else {
        ScanIsSound(text, pattern, i + 1, 0);
      }
    }
  }

  /** Matching bytes carry the scan along. */
  lemma {:induction false} ScanRun(text: seq<byte>, pattern: seq<byte>, i: nat, m: nat, n: nat)
    requires m + n <= |pattern| && i + n <= |text|
    requires text[i..i + n] == pattern[m..m + n]
    ensures Scan(text, pattern, i, m) == Scan(text, pattern, i + n, m + n)
    decreases n
  {
    if n > 0 {
      assert text[i] == text[i..i + n][0] == pattern[m..m + n][0] == pattern[m];
      assert text[i + 1..i + n] == text[i..i + n][1..] == pattern[m..m + n][1..] == pattern[m + 1..m + n];
      ScanRun(text, pattern, i + 1, m + 1, n - 1);
    }
  }

  // ----- Exactly what it finds

  /** The first `m` bytes of the pattern end at `p`. */
  ghost predicate EndsPiece(text: seq<byte>, pattern: seq<byte>, p: nat, m: nat) {
    0 < m < |pattern| && m <= p <= |text| && text[p - m..p] == pattern[..m]
  }

  /**
   * Position `p` is overrun when a piece of the pattern that would go on with the pattern's first byte ends there, and
   * that piece starts at a position that is not overrun itself: the scan is then in the middle of the piece.
   */
  ghost predicate Overrun(text: seq<byte>, pattern: seq<byte>, p: nat)
    decreases p
  {
    exists m: nat {:trigger EndsPiece(text, pattern, p, m)} ::
      EndsPiece(text, pattern, p, m) && pattern[m] == pattern[0] && !Overrun(text, pattern, p - m)
  }

  /** An occurrence that the scan is free to start on. */
  ghost predicate Catchable(text: seq<byte>, pattern: seq<byte>, p: nat) {
    OccursAt(text, pattern, p) && !Overrun(text, pattern, p)
  }

  ghost predicate NoneCatchable(text: seq<byte>, pattern: seq<byte>, from: nat, to: nat) {
    forall p :: from <= p < to ==> !Catchable(text, pattern, p)
  }

  /** A piece of length `m` ends at `i` that starts where the scan could start. */
  ghost predicate Piece(text: seq<byte>, pattern: seq<byte>, i: nat, m: nat) {
    EndsPiece(text, pattern, i, m) && !Overrun(text, pattern, i - m)
  }

  /** The match state is such a piece, and the only one that the next byte would prolong. */
  ghost predicate Tracks(text: seq<byte>, pattern: seq<byte>, i: nat, m: nat) {
    && m < |pattern| && m <= i <= |text|
    && (m > 0 ==> Piece(text, pattern, i, m))
    && forall k: nat {:trigger Piece(text, pattern, i, k)} ::
         Piece(text, pattern, i, k) && i < |text| && pattern[k] == text[i] ==> k == m
  }

  lemma PieceBegins(text: seq<byte>, pattern: seq<byte>, i: nat, m: nat)
    requires Piece(text, pattern, i, m) && i < |text| && pattern[m] == pattern[0]
    ensures Overrun(text, pattern, i)
  {}

  /** A piece one byte longer is the shorter one prolonged, or a fresh start. */
  lemma PieceShrinks(text: seq<byte>, pattern: seq<byte>, i: nat, k: nat)
    requires Piece(text, pattern, i + 1, k)
    ensures text[i] == pattern[k - 1]
    ensures k > 1 ==> Piece(text, pattern, i, k - 1)
    ensures k == 1 ==> !Overrun(text, pattern, i)
  {
    assert text[i] == text[i + 1 - k..i + 1][k - 1] == pattern[..k][k - 1];
    assert text[i - (k - 1)..i] == text[i + 1 - k..i + 1][..k - 1] == pattern[..k][..k - 1] == pattern[..k - 1];
  }

  lemma OverrunHasPiece(text: seq<byte>, pattern: seq<byte>, p: nat) returns (m: nat)
    requires Overrun(text, pattern, p)
    ensures Piece(text, pattern, p, m) && pattern[m] == pattern[0]
  {
    m :| EndsPiece(text, pattern, p, m) && pattern[m] == pattern[0] && !Overrun(text, pattern, p - m);
  }

  /** Where the scan starts on the pattern's first byte, no piece is overrun. */
  lemma StartIsFree(text: seq<byte>, pattern: seq<byte>, i: nat)
    requires pattern != [] && Tracks(text, pattern, i, 0) && i < |text| && text[i] == pattern[0]
    ensures !Overrun(text, pattern, i)
  {
    if Overrun(text, pattern, i) {
      var _ := OverrunHasPiece(text, pattern, i);
    }
  }

  lemma OccurrenceAt(text: seq<byte>, pattern: seq<byte>, p: nat, k: nat)
    requires OccursAt(text, pattern, p) && k < |pattern|
    ensures p + k < |text| && text[p + k] == pattern[k]
  {
    assert text[p..p + |pattern|][k] == pattern[k];
  }

  lemma PieceGrows(text: seq<byte>, pattern: seq<byte>, i: nat, m: nat)
    requires Tracks(text, pattern, i, m) && i < |text| && pattern[m] == text[i]
    ensures !Overrun(text, pattern, i - m) && text[i - m..i + 1] == pattern[..m + 1]
  {
    if m == 0 {
      StartIsFree(text, pattern, i);
    }
    assert text[i - m..i + 1] == text[i - m..i] + [text[i]];
    assert pattern[..m + 1] == pattern[..m] + [pattern[m]];
  }

  lemma OnlyPieceGrows(text: seq<byte>, pattern: seq<byte>, i: nat, m: nat, k: nat)
    requires Tracks(text, pattern, i, m) && i < |text| && pattern[m] == text[i]
    requires Piece(text, pattern, i + 1, k)
    ensures k == m + 1
  {
    PieceShrinks(text, pattern, i, k);
    if k == 1 && m > 0 {
      PieceBegins(text, pattern, i, m);
    }
  }

  lemma TracksMatch(text: seq<byte>, pattern: seq<byte>, i: nat, m: nat)
    requires Tracks(text, pattern, i, m) && i < |text| && pattern[m] == text[i] && m + 1 < |pattern|
    ensures Tracks(text, pattern, i + 1, m + 1)
  {
    PieceGrows(text, pattern, i, m);
    var next := i + 1;
    forall k | Piece(text, pattern, next, k)
      ensures k == m + 1
    {
      OnlyPieceGrows(text, pattern, i, m, k);
    }
  }

  lemma TracksMismatch(text: seq<byte>, pattern: seq<byte>, i: nat, m: nat)
    requires Tracks(text, pattern, i, m) && i < |text| && pattern[m] != text[i]
    ensures if m > 0 then Tracks(text, pattern, i, 0) else Tracks(text, pattern, i + 1, 0)
  {
    if m == 0 {
      var next := i + 1;
      forall k | Piece(text, pattern, next, k)
        ensures k == 0
      {
        PieceShrinks(text, pattern, i, k);
      }
    }
  }

  /** When a match fails, no occurrence that starts inside it was catchable. */
  lemma PassedBy(text: seq<byte>, pattern: seq<byte>, i: nat, m: nat, p: nat)
    requires Tracks(text, pattern, i, m) && i < |text| && pattern[m] != text[i]
    requires i - m <= p <= i && (p == i ==> m == 0)
    ensures !Catchable(text, pattern, p)
  {
    if OccursAt(text, pattern, p) {
      if p == i - m {
        OccurrenceAt(text, pattern, p, m);
      } else {
        OccurrenceAt(text, pattern, p, 0);
        InnerPiece(text, pattern, i, m, p - (i - m));
        PieceBegins(text, pattern, p, p - (i - m));
      }
    }
  }

  /** The front of a piece is a piece. */
  lemma InnerPiece(text: seq<byte>, pattern: seq<byte>, i: nat, m: nat, k: nat)
    requires Piece(text, pattern, i, m) && 0 < k < m
    ensures Piece(text, pattern, i - m + k, k) && text[i - m + k] == pattern[k]
  {
    assert text[i - m..i - m + k] == text[i - m..i][..k] == pattern[..m][..k] == pattern[..k];
    assert text[i - m + k] == text[i - m..i][k] == pattern[..m][k];
  }

  /** Where a match is completed, the scan has found a catchable occurrence. */
  lemma MatchCompletes(text: seq<byte>, pattern: seq<byte>, i: nat, m: nat)
    requires Tracks(text, pattern, i, m) && i < |text| && pattern[m] == text[i] && m + 1 == |pattern|
    ensures Scan(text, pattern, i, m) == Some(i - m) && Catchable(text, pattern, i - m)
  {
    PieceGrows(text, pattern, i, m);
    assert pattern[..m + 1] == pattern;
  }

  /** A result from `from` on neither passes over position `p` if that is catchable, nor is `p` if it is not. */
  predicate Fair(from: nat, r: Option<int>, p: nat, catchable: bool) {
    match r
    case Some(k) => from <= k && (p == k ==> catchable) && (from <= p < k ==> !catchable)
    case None => from <= p ==> !catchable
  }

  lemma NotAtEnd(text: seq<byte>, pattern: seq<byte>, i: nat, m: nat, p: nat)
    requires i == |text| && m < |pattern|
    ensures Scan(text, pattern, i, m) == None && (i - m <= p ==> !Catchable(text, pattern, p))
  {}

  /**
   * From a state that tracks the text on, the scan finds the first catchable occurrence, or nothing if there is none:
   * said of one position, of which `catchable` says whether it is one.
   */
  lemma {:induction false} ScanFrom(text: seq<byte>, pattern: seq<byte>, i: nat, m: nat, p: nat, catchable: bool)
    requires pattern != [] && Tracks(text, pattern, i, m)
    requires catchable == Catchable(text, pattern, p)
    ensures Fair(i - m, Scan(text, pattern, i, m), p, catchable)
    decreases |text| - i, m
  {
    if i == |text| {
      NotAtEnd(text, pattern, i, m, p);
    } else if pattern[m] == text[i] && m + 1 == |pattern| {
      MatchCompletes(text, pattern, i, m);
    } else if pattern[m] == text[i] {
      TracksMatch(text, pattern, i, m);
      ScanFrom(text, pattern, i + 1, m + 1, p, catchable);
    } else {
      TracksMismatch(text, pattern, i, m);
      var next := if m > 0 then i else i + 1;
      if i - m <= p < next {
        PassedBy(text, pattern, i, m, p);
      }
      ScanFrom(text, pattern, next, 0, p, catchable);
    }
  }

  lemma ScanAt(text: seq<byte>, pattern: seq<byte>, p: nat)
    requires pattern != []
    ensures match Scan(text, pattern, 0, 0)
            case Some(k) =>
              0 <= k && (p == k ==> Catchable(text, pattern, p)) && (p < k ==> !Catchable(text, pattern, p))
            case None => !Catchable(text, pattern, p)
  {
    ScanFrom(text, pattern, 0, 0, p, Catchable(text, pattern, p));
  }

  /** The scan finds a given position exactly when it is that of the first occurrence that is not overrun. */
  lemma ScanFindsFirstCatchable(text: seq<byte>, pattern: seq<byte>, q: nat)
    requires pattern != []
    ensures Scan(text, pattern, 0, 0) == Some(q) <==>
            Catchable(text, pattern, q) && NoneCatchable(text, pattern, 0, q)
  {
    ScanAt(text, pattern, q);
    match Scan(text, pattern, 0, 0)
    case None =>
    case Some(k) =>
      ScanAt(text, pattern, k);
      forall p | 0 <= p < k
        ensures !Catchable(text, pattern, p)
      {
        ScanAt(text, pattern, p);
      }
  }

  /** The scan finds the very first occurrence if and only if that one is not overrun. */
  lemma FirstIsFoundUnlessOverrun(text: seq<byte>, pattern: seq<byte>, q: nat)
    requires pattern != [] && IsFirst(text, pattern, q)
    ensures Scan(text, pattern, 0, 0) == Some(q) <==> !Overrun(text, pattern, q)
  {
    ScanFindsFirstCatchable(text, pattern, q);
  }

  /** The scan finds nothing if and only if all occurrences are overrun. */
  lemma NothingFoundExactlyWhenAllOverrun(text: seq<byte>, pattern: seq<byte>)
    requires pattern != []
    ensures Scan(text, pattern, 0, 0) == None <==>
            forall q: nat :: OccursAt(text, pattern, q) ==> Overrun(text, pattern, q)
  {
    match Scan(text, pattern, 0, 0)
    case None =>
      forall q: nat | OccursAt(text, pattern, q)
        ensures Overrun(text, pattern, q)
      {
        ScanAt(text, pattern, q);
      }
    case Some(k) =>
      ScanAt(text, pattern, 0);
      ScanAt(text, pattern, k);
  }
}
