// The synchronisation engine of qdiff (qdiff.cc): two files are walked with
// one cursor each; runs of equal bytes are matches, and after a difference
// the engine looks for the nearest place where `minmatch` bytes agree again.
// The files are the byte sequences the cache of RotFile returns.
module Sync {
  import opened MinMax

  type byte = bv8

  /** Byte k after o1 in f1 equals byte k after o2 in f2 (both present). */
  predicate SameAt(f1: seq<byte>, o1: nat, f2: seq<byte>, o2: nat, k: nat)
  {
    o1 + k < |f1| && o2 + k < |f2| && f1[o1 + k] == f2[o2 + k]
  }

  /**
   * The condition `compare` tests: at least minmatch bytes are left in both
   * files from the offsets, and those bytes agree pairwise.
   */
  predicate Synced(f1: seq<byte>, o1: nat, f2: seq<byte>, o2: nat, minmatch: nat)
  {
    |f1| - o1 >= minmatch && |f2| - o2 >= minmatch &&
    forall k :: 0 <= k < minmatch ==> SameAt(f1, o1, f2, o2, k)
  }

  /** Candidate (a, b) of syncronize: skipping a bytes of file 1 and b of file 2 reaches a sync point. */
  predicate SyncAt(f1: seq<byte>, o1: nat, f2: seq<byte>, o2: nat, minmatch: nat, a: nat, b: nat)
  {
    Synced(f1, o1 + a, f2, o2 + b, minmatch)
  }

  /** match: the length of the run of equal bytes from o1 and o2. */
  method Match(f1: seq<byte>, o1: nat, f2: seq<byte>, o2: nat) returns (n: nat)
    ensures forall k :: 0 <= k < n ==> SameAt(f1, o1, f2, o2, k)
    ensures !SameAt(f1, o1, f2, o2, n)
  {
    var i1, i2 := o1, o2;
    n := 0;
    while i1 < |f1| && i2 < |f2| && f1[i1] == f2[i2]
      invariant i1 == o1 + n && i2 == o2 + n
      invariant forall k :: 0 <= k < n ==> SameAt(f1, o1, f2, o2, k)
      decreases |f1| - i1
    {
      n, i1, i2 := n + 1, i1 + 1, i2 + 1;
    }
  }

  /** compare: true iff minmatch bytes agree at o1 and o2. */
  method Compare(f1: seq<byte>, o1: nat, f2: seq<byte>, o2: nat, minmatch: nat) returns (b: bool)
    ensures b <==> Synced(f1, o1, f2, o2, minmatch)
  {
    if |f1| - o1 < minmatch || |f2| - o2 < minmatch {
      return false;
    }
    var i1, i2 := o1, o2;
    for i := 0 to minmatch
      invariant i1 == o1 + i && i2 == o2 + i
      invariant forall k :: 0 <= k < i ==> SameAt(f1, o1, f2, o2, k)
    {
      if f1[i1] != f2[i2] {
        assert !SameAt(f1, o1, f2, o2, i);
        return false;
      }
      i1, i2 := i1 + 1, i2 + 1;
    }
    return true;
  }

  /** The run of minmatch equal bytes starting k bytes after the offsets fits in both files. */
  predicate RunAt(f1: seq<byte>, o1: nat, f2: seq<byte>, o2: nat, minmatch: nat, k: nat)
  {
    forall m :: k <= m < k + minmatch ==> SameAt(f1, o1, f2, o2, m)
  }

  /**
   * syncronizeOnlySubst: the number of bytes to report as substituted before
   * the first run of minmatch equal bytes, or the shorter remainder when no
   * such run exists.
   */
  method SyncOnlySubst(f1: seq<byte>, o1: nat, f2: seq<byte>, o2: nat, minmatch: nat) returns (n: nat)
    requires o1 <= |f1| && o2 <= |f2|
    ensures n <= Min(|f1| - o1, |f2| - o2)
    ensures RunAt(f1, o1, f2, o2, minmatch, n) || n == Min(|f1| - o1, |f2| - o2)
    ensures forall k :: 0 <= k < n ==> !RunAt(f1, o1, f2, o2, minmatch, k)
  {
    var rest := Min(|f1| - o1, |f2| - o2);
    var i1, i2 := o1, o2;
    var mis := -1;
    var i := 0;
    while i1 < |f1| && i2 < |f2| && i - mis <= minmatch
      invariant i1 == o1 + i && i2 == o2 + i && i <= rest
      invariant -1 <= mis < i && i - mis <= minmatch + 1
      invariant mis >= 0 ==> !SameAt(f1, o1, f2, o2, mis)
      invariant forall m :: mis < m < i ==> SameAt(f1, o1, f2, o2, m)
      invariant forall k :: 0 <= k <= mis ==> !RunAt(f1, o1, f2, o2, minmatch, k)
      decreases rest - i
    {
      if f1[i1] != f2[i2] {
        mis := i;
        forall k | 0 <= k <= mis ensures !RunAt(f1, o1, f2, o2, minmatch, k) {
          if k + minmatch > mis {
            assert !SameAt(f1, o1, f2, o2, mis);
          }
        }
      }
      i, i1, i2 := i + 1, i1 + 1, i2 + 1;
    }
    if i - mis > minmatch {
      n := mis + 1;
      assert RunAt(f1, o1, f2, o2, minmatch, n);
    } else {
      n := i;
      forall k | 0 <= k < n ensures !RunAt(f1, o1, f2, o2, minmatch, k) {
        if k > mis {
          assert !SameAt(f1, o1, f2, o2, i);
        }
      }
    }
  }

  /**
   * Search order of syncronize: candidate (a, b) skips a bytes of file 1 and b
   * of file 2.  The candidates are taken by growing max(a, b), then growing
   * min(a, b), and the skip in file 1 (a >= b) before the skip in file 2.
   */
  predicate Before(a: nat, b: nat, c: nat, d: nat)
  {
    Max(a, b) < Max(c, d) ||
    (Max(a, b) == Max(c, d) && Min(a, b) < Min(c, d)) ||
    (Max(a, b) == Max(c, d) && Min(a, b) == Min(c, d) && a > b && c < d)
  }

  /** A sync point stays one when the bytes just before it agree. */
  lemma SyncedBack(f1: seq<byte>, o1: nat, f2: seq<byte>, o2: nat, minmatch: nat)
    requires o1 > 0 && o2 > 0 && Synced(f1, o1, f2, o2, minmatch) && minmatch > 0
    requires f1[o1 - 1] == f2[o2 - 1]
    ensures Synced(f1, o1 - 1, f2, o2 - 1, minmatch)
  {
    var p1, p2 := o1 - 1, o2 - 1;
    forall k | 0 < k < minmatch ensures SameAt(f1, p1, f2, p2, k) {
      assert SameAt(f1, o1, f2, o2, k - 1);
    }
  }

  /** No candidate before the one with max i and min j agrees (the search order of syncronize). */
  ghost predicate NoneBefore(f1: seq<byte>, o1: nat, f2: seq<byte>, o2: nat, minmatch: nat, i: nat, j: nat)
  {
    forall a: nat, b: nat :: (Max(a, b) < i || (Max(a, b) == i && Min(a, b) < j)) ==>
      !SyncAt(f1, o1, f2, o2, minmatch, a, b)
  }

  /** Neither candidate with max i and min j agrees: the search moves on to min j + 1. */
  lemma NextCandidate(f1: seq<byte>, o1: nat, f2: seq<byte>, o2: nat, minmatch: nat, i: nat, j: nat)
    requires j <= i && NoneBefore(f1, o1, f2, o2, minmatch, i, j)
    requires !SyncAt(f1, o1, f2, o2, minmatch, i, j) && !SyncAt(f1, o1, f2, o2, minmatch, j, i)
    ensures NoneBefore(f1, o1, f2, o2, minmatch, i, j + 1)
  {
    forall a: nat, b: nat | Max(a, b) < i || (Max(a, b) == i && Min(a, b) < j + 1)
      ensures !SyncAt(f1, o1, f2, o2, minmatch, a, b)
    {
      if Max(a, b) == i && Min(a, b) == j {
        assert (a == i && b == j) || (a == j && b == i);
      }
    }
  }

  /** A finished ring of candidates with max i: the search moves on to max i + 1. */
  lemma NextRing(f1: seq<byte>, o1: nat, f2: seq<byte>, o2: nat, minmatch: nat, i: nat)
    requires NoneBefore(f1, o1, f2, o2, minmatch, i, i + 1)
    ensures NoneBefore(f1, o1, f2, o2, minmatch, i + 1, 0)
  {
    forall a: nat, b: nat | Max(a, b) < i + 1
      ensures !SyncAt(f1, o1, f2, o2, minmatch, a, b)
    {
      assert Max(a, b) < i || (Max(a, b) == i && Min(a, b) < i + 1);
    }
  }

  /**
   * The heuristic's step back: while the bytes just before a sync point
   * agree, the point moves back by one in both files.
   */
  method SlideBack(f1: seq<byte>, o1: nat, f2: seq<byte>, o2: nat, minmatch: nat, d1: nat, d2: nat)
    returns (e1: nat, e2: nat)
    requires minmatch >= 1 && Synced(f1, o1 + d1, f2, o2 + d2, minmatch)
    ensures e1 <= d1 && e2 <= d2 && d1 - e1 == d2 - e2
    ensures Synced(f1, o1 + e1, f2, o2 + e2, minmatch)
    ensures e1 == 0 || e2 == 0 || f1[o1 + e1 - 1] != f2[o2 + e2 - 1]
  {
    e1, e2 := d1, d2;
    while e1 > 0 && e2 > 0 && f1[o1 + e1 - 1] == f2[o2 + e2 - 1]
      invariant e1 <= d1 && e2 <= d2 && d1 - e1 == d2 - e2
      invariant Synced(f1, o1 + e1, f2, o2 + e2, minmatch)
    {
      SyncedBack(f1, o1 + e1, f2, o2 + e2, minmatch);
      e1, e2 := e1 - 1, e2 - 1;
    }
  }

  /**
   * The gap syncronize reports at the first candidate (a, b) that agrees,
   * where j is the smaller skip: the heuristic first slides the point back
   * over agreeing bytes; the common skip is the substitution and the rest a
   * deletion or an insertion.
   */
  method Settle(f1: seq<byte>, o1: nat, f2: seq<byte>, o2: nat, minmatch: nat, heurist: bool,
                i: nat, j: nat, a: nat, b: nat)
    returns (sub: nat, ins: nat, del: nat)
    requires minmatch >= 1 && j <= i && ((a == i && b == j) || (a == j && b == i))
    requires SyncAt(f1, o1, f2, o2, minmatch, a, b)
    requires !heurist ==> NoneBefore(f1, o1, f2, o2, minmatch, i, j)
    requires a == j && b == i && j < i ==> !SyncAt(f1, o1, f2, o2, minmatch, i, j)
    ensures ins == 0 || del == 0
    ensures o1 + sub + del <= |f1| && o2 + sub + ins <= |f2|
    ensures Synced(f1, o1 + sub + del, f2, o2 + sub + ins, minmatch)
    ensures sub > 0 ==> f1[o1 + sub + del - 1] != f2[o2 + sub + ins - 1]
    ensures !heurist ==>
      forall c: nat, d: nat :: Before(c, d, sub + del, sub + ins) ==> !SyncAt(f1, o1, f2, o2, minmatch, c, d)
  {
    var ta, tb := a, b;
    if heurist {
      ta, tb := SlideBack(f1, o1, f2, o2, minmatch, a, b);
    } else {
      NoEarlierSync(f1, o1, f2, o2, minmatch, i, j, a, b);
    }
    sub := Min(ta, tb);
    del, ins := ta - sub, tb - sub;
    assert o1 + sub + del == o1 + ta && o2 + sub + ins == o2 + tb;
  }

  /**
   * One ring of syncronize's search: the candidates whose larger skip is i,
   * by growing smaller skip, the skip in file 1 first.
   */
  method Ring(f1: seq<byte>, o1: nat, f2: seq<byte>, o2: nat, minmatch: nat, heurist: bool, i: nat)
    returns (found: bool, sub: nat, ins: nat, del: nat)
    requires minmatch >= 1
    requires !heurist ==> NoneBefore(f1, o1, f2, o2, minmatch, i, 0)
    ensures found ==> ins == 0 || del == 0
    ensures found ==> o1 + sub + del <= |f1| && o2 + sub + ins <= |f2|
    ensures found ==> Synced(f1, o1 + sub + del, f2, o2 + sub + ins, minmatch)
    ensures found && sub > 0 ==> f1[o1 + sub + del - 1] != f2[o2 + sub + ins - 1]
    ensures found && !heurist ==>
      forall c: nat, d: nat :: Before(c, d, sub + del, sub + ins) ==> !SyncAt(f1, o1, f2, o2, minmatch, c, d)
    ensures !found && !heurist ==> NoneBefore(f1, o1, f2, o2, minmatch, i + 1, 0)
  {
    sub, ins, del := 0, 0, 0;
    var j := 0;
    while j <= i
      invariant 0 <= j <= i + 1
      invariant !heurist ==> NoneBefore(f1, o1, f2, o2, minmatch, i, j)
    {
      found := Compare(f1, o1 + i, f2, o2 + j, minmatch);
      if found {
        sub, ins, del := Settle(f1, o1, f2, o2, minmatch, heurist, i, j, i, j);
        return;
      }
      found := Compare(f1, o1 + j, f2, o2 + i, minmatch);
      if found {
        sub, ins, del := Settle(f1, o1, f2, o2, minmatch, heurist, i, j, j, i);
        return;
      }
      if !heurist {
        NextCandidate(f1, o1, f2, o2, minmatch, i, j);
      }
      j := j + 1;
    }
    found := false;
    if !heurist {
      NextRing(f1, o1, f2, o2, minmatch, i);
    }
  }

  /**
   * syncronize: the substitution, insertion and deletion that bring the two
   * cursors to the next sync point; when there is none, the rest of both
   * files.  Outputs are passed back as a triple.
   */
  method Synchronize(f1: seq<byte>, o1: nat, f2: seq<byte>, o2: nat, minmatch: nat, heurist: bool)
    returns (sub: nat, ins: nat, del: nat)
    requires o1 <= |f1| && o2 <= |f2| && minmatch >= 1
    ensures ins == 0 || del == 0
    ensures o1 + sub + del <= |f1| && o2 + sub + ins <= |f2|
    ensures o1 == |f1| ==> sub == 0 && del == 0 && ins == |f2| - o2
    ensures o1 < |f1| && o2 == |f2| ==> sub == 0 && ins == 0 && del == |f1| - o1
    ensures o1 < |f1| && o2 < |f2| ==>
      Synced(f1, o1 + sub + del, f2, o2 + sub + ins, minmatch) ||
      (sub == Min(|f1| - o1, |f2| - o2) && o1 + sub + del == |f1| && o2 + sub + ins == |f2|)
    ensures Synced(f1, o1 + sub + del, f2, o2 + sub + ins, minmatch) && sub > 0 ==>
      f1[o1 + sub + del - 1] != f2[o2 + sub + ins - 1]
    ensures !heurist && o1 < |f1| && o2 < |f2| && Synced(f1, o1 + sub + del, f2, o2 + sub + ins, minmatch) ==>
      forall a: nat, b: nat :: Before(a, b, sub + del, sub + ins) ==> !SyncAt(f1, o1, f2, o2, minmatch, a, b)
    ensures !heurist && o1 < |f1| && o2 < |f2| && !Synced(f1, o1 + sub + del, f2, o2 + sub + ins, minmatch) ==>
      forall a: nat, b: nat :: !SyncAt(f1, o1, f2, o2, minmatch, a, b)
  {
    sub, ins, del := 0, 0, 0;
    if o1 == |f1| {
      ins := |f2| - o2;
      return;
    }
    if o2 == |f2| {
      del := |f1| - o1;
      return;
    }
    var maxI := Max(|f1| - o1, |f2| - o2) - minmatch;
    var i := 0;
    while i <= maxI
      invariant 0 <= i
      invariant !heurist ==> NoneBefore(f1, o1, f2, o2, minmatch, i, 0)
      decreases maxI + 1 - i
    {
      var found;
      found, sub, ins, del := Ring(f1, o1, f2, o2, minmatch, heurist, i);
      if found {
        return;
      }
      if heurist {
        i := i + i / 10;
      }
      i := i + 1;
    }
    sub := Min(|f1| - o1, |f2| - o2);
    del := |f1| - o1 - sub;
    ins := |f2| - o2 - sub;
    if !heurist {
      forall a: nat, b: nat ensures !SyncAt(f1, o1, f2, o2, minmatch, a, b) {
        if Max(a, b) < i {
          assert Max(a, b) < i || (Max(a, b) == i && Min(a, b) < 0);
        } else {
          assert |f1| - (o1 + a) < minmatch || |f2| - (o2 + b) < minmatch;
        }
      }
    }
  }

  /**
   * When (a, b) with max i and min j is the first candidate that agrees, no
   * earlier candidate agrees, and the bytes just before it differ.
   */
  lemma NoEarlierSync(f1: seq<byte>, o1: nat, f2: seq<byte>, o2: nat, minmatch: nat,
                      i: nat, j: nat, a: nat, b: nat)
    requires minmatch >= 1 && j <= i && ((a == i && b == j) || (a == j && b == i))
    requires SyncAt(f1, o1, f2, o2, minmatch, a, b)
    requires NoneBefore(f1, o1, f2, o2, minmatch, i, j)
    requires a == j && b == i && j < i ==> !SyncAt(f1, o1, f2, o2, minmatch, i, j)
    ensures forall c: nat, d: nat :: Before(c, d, a, b) ==> !SyncAt(f1, o1, f2, o2, minmatch, c, d)
    ensures j > 0 ==> f1[o1 + a - 1] != f2[o2 + b - 1]
  {
    if j > 0 && f1[o1 + a - 1] == f2[o2 + b - 1] {
      SyncedBack(f1, o1 + a, f2, o2 + b, minmatch);
      assert SyncAt(f1, o1, f2, o2, minmatch, a - 1, b - 1);
    }
  }

  /** A call the driver makes on the renderer (TDiffOutput), in order. */
  datatype Event =
    | Mat(n: nat)                      // out.mat(n)
    | Sub(n: nat, ins: nat, del: nat)  // out.sub(n, ins, del)
    | Del(n: nat)                      // out.del(n)
    | Ins(n: nat)                      // out.ins(n)
    | Flush                            // out.flush()
    | EofNotice(restInFile1: bool, uncompared: nat)  // the stop-on-eof message

  /** What the driver does with two files. */
  datatype Outcome =
    | BothEmpty    // "both files are empty, nothing to compare"
    | FirstEmpty   // "file '...' is empty" for the first file
    | SecondEmpty  // the same for the second file
    | Diffed(events: seq<Event>)

  /** How far an event moves the two cursors. */
  function Advance(e: Event): (nat, nat)
  {
    match e
    case Mat(n) => (n, n)
    case Sub(n, ins, del) => (n + del, n + ins)
    case Del(n) => (n, 0)
    case Ins(n) => (0, n)
    case Flush => (0, 0)
    case EofNotice(_, _) => (0, 0)
  }

  /** The cursors after replaying the events from the start of both files. */
  function Consumed(es: seq<Event>): (nat, nat)
    decreases |es|
  {
    if es == [] then (0, 0)
    else
      var before := Consumed(es[..|es| - 1]);
      var step := Advance(es[|es| - 1]);
      (before.0 + step.0, before.1 + step.1)
  }

  /**
   * Event e, issued with the cursors at p, reports at least one byte, stays
   * inside both files, and a match covers a maximal run of equal bytes.
   */
  predicate Fits(f1: seq<byte>, f2: seq<byte>, p: (nat, nat), e: Event)
  {
    match e
    case Mat(n) =>
      n >= 1 && p.0 + n <= |f1| && p.1 + n <= |f2| &&
      (forall k :: 0 <= k < n ==> SameAt(f1, p.0, f2, p.1, k)) && !SameAt(f1, p.0, f2, p.1, n)
    case Sub(n, ins, del) => n >= 1 && (ins == 0 || del == 0) && p.0 + n + del <= |f1| && p.1 + n + ins <= |f2|
    case Del(n) => n >= 1 && p.0 + n <= |f1|
    case Ins(n) => n >= 1 && p.1 + n <= |f2|
    case Flush => true
    case EofNotice(rest1, count) =>
      count >= 1 && (if rest1 then p.1 == |f2| && p.0 + count == |f1| else p.0 == |f1| && p.1 + count == |f2|)
  }

  /** Every event of the stream fits where the replay has put the cursors. */
  predicate Sound(f1: seq<byte>, f2: seq<byte>, es: seq<Event>)
    decreases |es|
  {
    es == [] || (Sound(f1, f2, es[..|es| - 1]) && Fits(f1, f2, Consumed(es[..|es| - 1]), es[|es| - 1]))
  }

  /** Appending a fitting event keeps the stream sound and advances the replay by that event. */
  lemma Append(f1: seq<byte>, f2: seq<byte>, es: seq<Event>, e: Event)
    requires Sound(f1, f2, es) && Fits(f1, f2, Consumed(es), e)
    ensures Sound(f1, f2, es + [e])
    ensures Consumed(es + [e]) == (Consumed(es).0 + Advance(e).0, Consumed(es).1 + Advance(e).1)
  {
    assert (es + [e])[..|es|] == es;
  }

  /** Issues one call on the renderer: the event joins the stream. */
  method Emit(f1: seq<byte>, f2: seq<byte>, es: seq<Event>, e: Event) returns (es': seq<Event>)
    requires Sound(f1, f2, es) && Fits(f1, f2, Consumed(es), e)
    ensures Sound(f1, f2, es') && |es'| == |es| + 1 && es'[|es|] == e
    ensures Consumed(es') == (Consumed(es).0 + Advance(e).0, Consumed(es).1 + Advance(e).1)
  {
    Append(f1, f2, es, e);
    es' := es + [e];
  }

  /**
   * One gap report of the driver's loop (qdiff.cc:259-277): the bytes up to
   * the next sync point are reported as a substitution, deletion or
   * insertion.  Either the cursors move or they already sit on a match.
   */
  method ReportGap(f1: seq<byte>, f2: seq<byte>, o1: nat, o2: nat, es: seq<Event>,
                   minmatch: nat, bytebybyte: bool, heurist: bool)
    returns (es': seq<Event>, p1: nat, p2: nat)
    requires o1 < |f1| && o2 < |f2| && minmatch >= 1
    requires Sound(f1, f2, es) && Consumed(es) == (o1, o2)
    ensures Sound(f1, f2, es') && Consumed(es') == (p1, p2)
    ensures o1 <= p1 <= |f1| && o2 <= p2 <= |f2|
    ensures p1 + p2 > o1 + o2 || SameAt(f1, p1, f2, p2, 0)
  {
    if bytebybyte {
      es', p1, p2 := ReportSubstGap(f1, f2, o1, o2, es, minmatch);
    } else {
      es', p1, p2 := ReportSyncGap(f1, f2, o1, o2, es, minmatch, heurist);
    }
  }

  /** The byte-by-byte gap: a substitution of n bytes, n >= 1, or nothing at a match. */
  method ReportSubstGap(f1: seq<byte>, f2: seq<byte>, o1: nat, o2: nat, es: seq<Event>, minmatch: nat)
    returns (es': seq<Event>, p1: nat, p2: nat)
    requires o1 < |f1| && o2 < |f2| && minmatch >= 1
    requires Sound(f1, f2, es) && Consumed(es) == (o1, o2)
    ensures Sound(f1, f2, es') && Consumed(es') == (p1, p2)
    ensures o1 <= p1 <= |f1| && o2 <= p2 <= |f2| && p1 - o1 == p2 - o2
    ensures p1 > o1 || SameAt(f1, p1, f2, p2, 0)
  {
    es' := es;
    var n := SyncOnlySubst(f1, o1, f2, o2, minmatch);
    if n != 0 {
      es' := Emit(f1, f2, es', Sub(n, 0, 0));
    } else {
      assert RunAt(f1, o1, f2, o2, minmatch, 0);
    }
    p1, p2 := o1 + n, o2 + n;
  }

  /** The gap up to the next sync point found by Synchronize. */
  method ReportSyncGap(f1: seq<byte>, f2: seq<byte>, o1: nat, o2: nat, es: seq<Event>, minmatch: nat, heurist: bool)
    returns (es': seq<Event>, p1: nat, p2: nat)
    requires o1 < |f1| && o2 < |f2| && minmatch >= 1
    requires Sound(f1, f2, es) && Consumed(es) == (o1, o2)
    ensures Sound(f1, f2, es') && Consumed(es') == (p1, p2)
    ensures o1 <= p1 <= |f1| && o2 <= p2 <= |f2|
    ensures p1 + p2 > o1 + o2 || SameAt(f1, p1, f2, p2, 0)
  {
    var sub, ins, del := Synchronize(f1, o1, f2, o2, minmatch, heurist);
    es' := EmitGap(f1, f2, es, sub, ins, del);
    if sub + ins + del == 0 {
      assert Synced(f1, o1, f2, o2, minmatch);
    }
    p1, p2 := o1 + sub + del, o2 + sub + ins;
  }

  /**
   * The calls for one gap (qdiff.cc:271-275): a substitution when some bytes
   * are substituted, otherwise a deletion and an insertion of the bytes
   * skipped, each only when not empty.
   */
  method EmitGap(f1: seq<byte>, f2: seq<byte>, es: seq<Event>, sub: nat, ins: nat, del: nat)
    returns (es': seq<Event>)
    requires Sound(f1, f2, es) && (ins == 0 || del == 0)
    requires Consumed(es).0 + sub + del <= |f1| && Consumed(es).1 + sub + ins <= |f2|
    ensures Sound(f1, f2, es') && Consumed(es') == (Consumed(es).0 + sub + del, Consumed(es).1 + sub + ins)
  {
    es' := es;
    if sub != 0 {
      es' := Emit(f1, f2, es', Sub(sub, ins, del));
    } else {
      if del != 0 {
        es' := Emit(f1, f2, es', Del(del));
      }
      if ins != 0 {
        es' := Emit(f1, f2, es', Ins(ins));
      }
    }
  }

  /** The match report that follows each gap (qdiff.cc:278-282). */
  method ReportMatch(f1: seq<byte>, f2: seq<byte>, o1: nat, o2: nat, es: seq<Event>)
    returns (es': seq<Event>, p1: nat, p2: nat)
    requires o1 <= |f1| && o2 <= |f2|
    requires Sound(f1, f2, es) && Consumed(es) == (o1, o2)
    ensures Sound(f1, f2, es') && Consumed(es') == (p1, p2)
    ensures o1 <= p1 <= |f1| && o2 <= p2 <= |f2| && p1 - o1 == p2 - o2
    ensures SameAt(f1, o1, f2, o2, 0) ==> p1 > o1
  {
    es' := es;
    var m := Match(f1, o1, f2, o2);
    if m != 0 {
      assert SameAt(f1, o1, f2, o2, m - 1);
      es' := Emit(f1, f2, es', Mat(m));
    }
    p1, p2 := o1 + m, o2 + m;
  }

  /**
   * The end of the comparison (qdiff.cc:284-299): once one cursor is at the
   * end of its file, the rest of the other is deleted or inserted, or, with
   * stop-on-eof, the output is flushed and a notice says how many bytes were
   * left uncompared; a final flush follows.
   */
  method ReportTail(f1: seq<byte>, f2: seq<byte>, o1: nat, o2: nat, es: seq<Event>, stoponeof: bool)
    returns (es': seq<Event>)
    requires o1 <= |f1| && o2 <= |f2| && (o1 == |f1| || o2 == |f2|)
    requires Sound(f1, f2, es) && Consumed(es) == (o1, o2)
    ensures Sound(f1, f2, es') && |es'| > 0 && es'[|es'| - 1] == Flush
    ensures stoponeof ==> Consumed(es') == (o1, o2)
    ensures !stoponeof ==> Consumed(es') == (|f1|, |f2|)
  {
    es' := es;
    if o1 != |f1| {
      es' := EmitRest(f1, f2, es', true, stoponeof);
    }
    if o2 != |f2| {
      es' := EmitRest(f1, f2, es', false, stoponeof);
    }
    es' := Emit(f1, f2, es', Flush);
  }

  /**
   * The rest of file 1 (rest1) or of file 2 once the other file is done
   * (qdiff.cc:286-299): deleted or inserted, or, with stop-on-eof, a flush
   * and the notice.
   */
  method EmitRest(f1: seq<byte>, f2: seq<byte>, es: seq<Event>, rest1: bool, stoponeof: bool)
    returns (es': seq<Event>)
    requires Sound(f1, f2, es)
    requires rest1 ==> Consumed(es).0 < |f1| && Consumed(es).1 == |f2|
    requires !rest1 ==> Consumed(es).1 < |f2| && Consumed(es).0 == |f1|
    ensures Sound(f1, f2, es')
    ensures stoponeof ==> Consumed(es') == Consumed(es)
    ensures !stoponeof ==> Consumed(es') == (|f1|, |f2|)
  {
    var (o1, o2) := Consumed(es);
    var count := if rest1 then |f1| - o1 else |f2| - o2;
    if stoponeof {
      es' := Emit(f1, f2, es, Flush);
      es' := Emit(f1, f2, es', EofNotice(rest1, count));
    } else if rest1 {
      es' := Emit(f1, f2, es, Del(count));
    } else {
      es' := Emit(f1, f2, es, Ins(count));
    }
  }

  /**
   * The driver of main (qdiff.cc:236-300): empty files are reported and not
   * compared; otherwise, while neither cursor is at the end of its file, the
   * gap to the next sync point is reported and then the match that follows
   * it; then the tail.  minmatch >= 1 is the option's lower bound
   * (qdiff.cc:50).
   */
  method Diff(f1: seq<byte>, f2: seq<byte>, minmatch: nat, bytebybyte: bool, heurist: bool, stoponeof: bool)
    returns (out: Outcome)
    requires minmatch >= 1
    ensures out == BothEmpty <==> |f1| == 0 && |f2| == 0
    ensures out == FirstEmpty <==> |f1| == 0 && |f2| != 0
    ensures out == SecondEmpty <==> |f1| != 0 && |f2| == 0
    ensures out.Diffed? ==> Sound(f1, f2, out.events) && |out.events| > 0 && out.events[|out.events| - 1] == Flush
    ensures out.Diffed? && !stoponeof ==> Consumed(out.events) == (|f1|, |f2|)
    ensures out.Diffed? ==> Consumed(out.events).0 == |f1| || Consumed(out.events).1 == |f2|
  {
    if |f1| == 0 && |f2| == 0 {
      return BothEmpty;
    }
    if |f1| == 0 {
      return FirstEmpty;
    }
    if |f2| == 0 {
      return SecondEmpty;
    }
    var o1, o2 := 0, 0;
    var es: seq<Event> := [];
    while o1 != |f1| && o2 != |f2|
      invariant o1 <= |f1| && o2 <= |f2|
      invariant Sound(f1, f2, es) && Consumed(es) == (o1, o2)
      decreases |f1| - o1 + |f2| - o2
    {
      var g1, g2;
      es, g1, g2 := ReportGap(f1, f2, o1, o2, es, minmatch, bytebybyte, heurist);
      var m1, m2;
      es, m1, m2 := ReportMatch(f1, f2, g1, g2, es);
      o1, o2 := m1, m2;
    }
    // the internal-error check of qdiff.cc:284-285 cannot fire
    assert o1 == |f1| || o2 == |f2|;
    es := ReportTail(f1, f2, o1, o2, es, stoponeof);
    out := Diffed(es);
  }
}
