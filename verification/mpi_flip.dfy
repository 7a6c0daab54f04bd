/** The distributed vertical flip of the MPI variant, run as a lockstep simulation
    of all ranks. Every rank walks the same pair indices `i = 0 .. v/2 - 1`; for
    each mirror pair `(i, v-1-i)` the owner of both rows swaps them locally, or the
    two owners exchange their rows in one `MPI_Sendrecv`, or the rank skips.
    One `Step` applies pair `i` on every rank at once; `Sendrecv` is an atomic
    exchange of the two rows. */
module MpiFlip {
  import opened Raster
  import opened Partition
  import PixelSwap

  /** How the pair touches the ranks: one owner for both rows, or two distinct owners. */
  datatype PairKind = Local(owner: nat) | Remote(topOwner: nat, bottomOwner: nat)

  /** What one rank does for one mirror pair. */
  datatype Role =
    | Swapper(topIdx: nat, bottomIdx: nat)      // both rows local: three memcpys through `Buff`
    | Initiator(partner: nat, localIdx: nat)    // holds the top row: `Sendrecv` with the bottom row's owner
    | Responder(partner: nat, localIdx: nat)    // holds the bottom row: `Sendrecv` with the top row's owner
    | NotInvolved                               // holds neither row: skip

  /** The role issues an `MPI_Sendrecv` naming `peer`. */
  predicate CallsWith(role: Role, peer: nat)
  {
    (role.Initiator? || role.Responder?) && role.partner == peer
  }

  /** Pair classification from `getRank` of both rows. */
  function Classify(v: nat, p: nat, i: nat): (k: PairKind)
    requires p >= 1 && i < v / 2
    ensures k.Local? <==> GetRank(v, p, i) == GetRank(v, p, v - 1 - i)
    ensures k.Local? ==> k.owner < p && Owns(v, p, k.owner, i) && Owns(v, p, k.owner, v - 1 - i)
    ensures k.Remote? ==>
      && k.topOwner < p && Owns(v, p, k.topOwner, i)
      && k.bottomOwner < p && Owns(v, p, k.bottomOwner, v - 1 - i)
  {
    var topOwner := GetRank(v, p, i);
    var bottomOwner := GetRank(v, p, v - 1 - i);
    if topOwner == bottomOwner then Local(topOwner) else Remote(topOwner, bottomOwner)
  }

  /** The body of the loop of `FlipImageV` as seen by `rank` at pair index `i`:
      the branch it takes, its partner and its local row offsets. */
  function RoleOf(v: nat, p: nat, rank: nat, i: nat): (role: Role)
    requires p >= 1 && rank < p && i < v / 2
    ensures role.Swapper? <==> Owns(v, p, rank, i) && Owns(v, p, rank, v - 1 - i)
    ensures role.Initiator? <==> Owns(v, p, rank, i) && !Owns(v, p, rank, v - 1 - i)
    ensures role.Responder? <==> !Owns(v, p, rank, i) && Owns(v, p, rank, v - 1 - i)
    ensures role.NotInvolved? <==> !Owns(v, p, rank, i) && !Owns(v, p, rank, v - 1 - i)
    ensures role.Swapper? ==>
      && role.topIdx < LocalRows(v, p, rank) && Start(v, p, rank) + role.topIdx == i
      && role.bottomIdx < LocalRows(v, p, rank) && Start(v, p, rank) + role.bottomIdx == v - 1 - i
    ensures role.Initiator? ==>
      && role.localIdx < LocalRows(v, p, rank) && Start(v, p, rank) + role.localIdx == i
      && role.partner < p && Owns(v, p, role.partner, v - 1 - i)
    ensures role.Responder? ==>
      && role.localIdx < LocalRows(v, p, rank) && Start(v, p, rank) + role.localIdx == v - 1 - i
      && role.partner < p && Owns(v, p, role.partner, i)
  {
    var bottomGlobalIdx := v - 1 - i;
    var topOwner := GetRank(v, p, i);
    var bottomOwner := GetRank(v, p, bottomGlobalIdx);
    GetRankIff(v, p, i, rank);
    GetRankIff(v, p, bottomGlobalIdx, rank);
    if topOwner == bottomOwner then
      if rank == topOwner then Swapper(GetMyIdx(v, p, rank, i), GetMyIdx(v, p, rank, bottomGlobalIdx))
      else NotInvolved
    else if rank == topOwner then Initiator(bottomOwner, GetMyIdx(v, p, rank, i))
    else if rank == bottomOwner then Responder(topOwner, GetMyIdx(v, p, rank, bottomGlobalIdx))
    else NotInvolved
  }

  /** Exactly one case holds per pair: a local pair is acted on by its owner alone and
      nobody exchanges; a remote pair is acted on by its two owners alone, the top
      owner as initiator and the bottom owner as responder. */
  lemma PairActors(v: nat, p: nat, i: nat, rank: nat)
    requires p >= 1 && rank < p && i < v / 2
    ensures Classify(v, p, i).Local? ==>
      && (RoleOf(v, p, rank, i).Swapper? <==> rank == Classify(v, p, i).owner)
      && (rank != Classify(v, p, i).owner ==> RoleOf(v, p, rank, i).NotInvolved?)
    ensures Classify(v, p, i).Remote? ==>
      && (RoleOf(v, p, rank, i).Initiator? <==> rank == Classify(v, p, i).topOwner)
      && (RoleOf(v, p, rank, i).Responder? <==> rank == Classify(v, p, i).bottomOwner)
      && (RoleOf(v, p, rank, i).NotInvolved? <==>
            rank != Classify(v, p, i).topOwner && rank != Classify(v, p, i).bottomOwner)
  {
    GetRankIff(v, p, i, rank);
    GetRankIff(v, p, v - 1 - i, rank);
  }

  /** The partner named by an exchanging rank exchanges too, in the opposite role,
      naming that rank back. */
  lemma PartnerAnswers(v: nat, p: nat, i: nat, a: nat)
    requires p >= 1 && a < p && i < v / 2
    requires RoleOf(v, p, a, i).Initiator? || RoleOf(v, p, a, i).Responder?
    ensures RoleOf(v, p, a, i).partner < p
    ensures RoleOf(v, p, a, i).Initiator? ==> RoleOf(v, p, RoleOf(v, p, a, i).partner, i).Responder?
    ensures RoleOf(v, p, a, i).Responder? ==> RoleOf(v, p, RoleOf(v, p, a, i).partner, i).Initiator?
    ensures RoleOf(v, p, RoleOf(v, p, a, i).partner, i).partner == a
  {
    var top, bottom := i, v - 1 - i;
    var ra := RoleOf(v, p, a, i);
    var b := ra.partner;
    var rb := RoleOf(v, p, b, i);
    if ra.Initiator? {
      if Owns(v, p, b, top) {
        BlocksDisjoint(v, p, a, b, top);
      } else {
        BlocksDisjoint(v, p, rb.partner, a, top);
      }
    } else {
      if Owns(v, p, b, bottom) {
        BlocksDisjoint(v, p, a, b, bottom);
      } else {
        BlocksDisjoint(v, p, rb.partner, a, bottom);
      }
    }
  }

  /** The two partners of an exchange name each other at the same pair index. */
  lemma RolesPaired(v: nat, p: nat, i: nat, a: nat, b: nat)
    requires p >= 1 && a < p && b < p && i < v / 2
    ensures CallsWith(RoleOf(v, p, a, i), b) <==> CallsWith(RoleOf(v, p, b, i), a)
  {
    if CallsWith(RoleOf(v, p, a, i), b) {
      PartnerAnswers(v, p, i, a);
    }
    if CallsWith(RoleOf(v, p, b, i), a) {
      PartnerAnswers(v, p, i, b);
    }
  }

  /** With one rank every pair is local: the transport is never used. */
  lemma SingleRankNeverExchanges(v: nat, i: nat)
    requires i < v / 2
    ensures Classify(v, 1, i) == Local(0)
    ensures RoleOf(v, 1, 0, i).Swapper?
  {
  }

  /** Ten rows on three ranks: blocks `[0,3)`, `[3,6)`, `[6,10)`; only the pair `(4,5)` is local. */
  lemma TenRowsThreeRanks()
    ensures LocalRows(10, 3, 0) == 3 && LocalRows(10, 3, 1) == 3 && LocalRows(10, 3, 2) == 4
    ensures Classify(10, 3, 0) == Remote(0, 2) && Classify(10, 3, 1) == Remote(0, 2)
    ensures Classify(10, 3, 2) == Remote(0, 2) && Classify(10, 3, 3) == Remote(1, 2)
    ensures Classify(10, 3, 4) == Local(1)
  {
  }

  /** The row `rank` copies into `Buff` and sends in its `Sendrecv` for pair `i`;
      ranks that do not exchange send nothing. */
  function Outgoing(ranks: seq<seq<Row>>, v: nat, p: nat, i: nat, rank: nat): (sent: Row)
    requires WellFormed(ranks, v, p) && rank < p && i < v / 2
  {
    match RoleOf(v, p, rank, i)
    case Initiator(_, k) => ranks[rank][k]
    case Responder(_, k) => ranks[rank][k]
    case _ => []
  }

  /** `rank`'s buffer after pair `i`: a local swap, the row received from the partner
      written over the row it sent, or untouched. */
  function Perform(ranks: seq<seq<Row>>, v: nat, p: nat, i: nat, rank: nat): (local: seq<Row>)
    requires WellFormed(ranks, v, p) && rank < p && i < v / 2
    ensures |local| == |ranks[rank]|
  {
    match RoleOf(v, p, rank, i)
    case Swapper(top, bottom) =>
      var buff := ranks[rank][top];
      ranks[rank][top := ranks[rank][bottom]][bottom := buff]
    case Initiator(partner, k) => ranks[rank][k := Outgoing(ranks, v, p, i, partner)]
    case Responder(partner, k) => ranks[rank][k := Outgoing(ranks, v, p, i, partner)]
    case NotInvolved => ranks[rank]
  }

  /** Iteration `i` of the loop on every rank at once. */
  function Step(ranks: seq<seq<Row>>, v: nat, p: nat, i: nat): (next: seq<seq<Row>>)
    requires WellFormed(ranks, v, p) && i < v / 2
    ensures WellFormed(next, v, p)
  {
    seq(p, rank requires 0 <= rank < p => Perform(ranks, v, p, i, rank))
  }

  /** Row `k` of `rank` is row `Start(rank) + k` of the gathered image. */
  lemma GatherAt<T>(ranks: seq<seq<T>>, v: nat, p: nat, rank: nat, k: nat)
    requires WellFormed(ranks, v, p) && rank < p && k < LocalRows(v, p, rank)
    ensures |Gather(ranks)| == v && Start(v, p, rank) + k < v
    ensures Gather(ranks)[Start(v, p, rank) + k] == ranks[rank][k]
  {
    ScatterGather(ranks, v, p);
    BlockBounds(v, p, rank);
    assert Scatter(Gather(ranks), p)[rank] == Block(Gather(ranks), p, rank);
  }

  /** Row `k` of `rank` after pair `i` is the row at its global position in the image
      with rows `i` and `v-1-i` swapped. */
  lemma StepRowAt(ranks: seq<seq<Row>>, v: nat, p: nat, i: nat, rank: nat, k: nat)
    requires WellFormed(ranks, v, p) && i < v / 2 && rank < p && k < LocalRows(v, p, rank)
    ensures |Gather(ranks)| == v && Start(v, p, rank) + k < v
    ensures Perform(ranks, v, p, i, rank)[k] == Swap(Gather(ranks), i, v - 1 - i)[Start(v, p, rank) + k]
  {
    var all := Gather(ranks);
    var g := Start(v, p, rank) + k;
    GatherAt(ranks, v, p, rank, k);
    assert Owns(v, p, rank, g);
    var swapped := Swap(all, i, v - 1 - i);
    assert swapped[g] == if g == v - 1 - i then all[i] else if g == i then all[v - 1 - i] else all[g];
    match RoleOf(v, p, rank, i) {
      case Swapper(top, bottom) =>
        GatherAt(ranks, v, p, rank, top);
        GatherAt(ranks, v, p, rank, bottom);
      case Initiator(partner, idx) =>
        PartnerAnswers(v, p, i, rank);
        GatherAt(ranks, v, p, partner, RoleOf(v, p, partner, i).localIdx);
      case Responder(partner, idx) =>
        PartnerAnswers(v, p, i, rank);
        GatherAt(ranks, v, p, partner, RoleOf(v, p, partner, i).localIdx);
      case NotInvolved =>
    }
  }

  lemma StepRank(ranks: seq<seq<Row>>, v: nat, p: nat, i: nat, rank: nat)
    requires WellFormed(ranks, v, p) && i < v / 2 && rank < p
    ensures |Gather(ranks)| == v
    ensures Perform(ranks, v, p, i, rank) == Block(Swap(Gather(ranks), i, v - 1 - i), p, rank)
  {
    ScatterGather(ranks, v, p);
    var swapped := Swap(Gather(ranks), i, v - 1 - i);
    var want := Block(swapped, p, rank);
    var got := Perform(ranks, v, p, i, rank);
    assert got == want by {
      forall k | 0 <= k < LocalRows(v, p, rank)
        ensures got[k] == want[k]
      {
        StepRowAt(ranks, v, p, i, rank, k);
        BlockAt(swapped, p, rank, k);
      }
    }
  }

  /** One lockstep iteration swaps global rows `i` and `v-1-i` and nothing else. */
  lemma StepSwapsPair(ranks: seq<seq<Row>>, v: nat, p: nat, i: nat)
    requires WellFormed(ranks, v, p) && i < v / 2
    ensures |Gather(ranks)| == v
    ensures Gather(Step(ranks, v, p, i)) == Swap(Gather(ranks), i, v - 1 - i)
  {
    ScatterGather(ranks, v, p);
    var swapped := Swap(Gather(ranks), i, v - 1 - i);
    var next := Step(ranks, v, p, i);
    forall rank | 0 <= rank < p
      ensures next[rank] == Scatter(swapped, p)[rank]
    {
      StepRank(ranks, v, p, i, rank);
    }
    assert next == Scatter(swapped, p);
    GatherScatter(swapped, p);
  }

  /** `FlipImageV` run on all ranks: after the loop, local row `k` of rank `r` holds
      global row `v - 1 - (r * rowsPerProc + k)` of the scattered image. */
  method FlipImageV(ranks: seq<seq<Row>>, v: nat, p: nat) returns (out: seq<seq<Row>>)
    requires WellFormed(ranks, v, p)
    ensures WellFormed(out, v, p) && |Gather(ranks)| == v
    ensures Gather(out) == ReverseRows(Gather(ranks))
    ensures forall r :: 0 <= r < p ==> Start(v, p, r) + LocalRows(v, p, r) <= v
    ensures forall r, k :: 0 <= r < p && 0 <= k < LocalRows(v, p, r) ==>
      out[r][k] == Gather(ranks)[v - 1 - (Start(v, p, r) + k)]
    ensures v <= 1 ==> out == ranks
  {
    ScatterGather(ranks, v, p);
    out := ranks;
    var halfRows := v / 2;
    var i := 0;
    while i < halfRows
      invariant 0 <= i <= halfRows
      invariant WellFormed(out, v, p)
      invariant Gather(out) == MirrorSpan(Gather(ranks), 0, i)
      invariant i == 0 ==> out == ranks
    {
      StepExtendsMirror(Gather(ranks), out, v, p, i);
      out := Step(out, v, p, i);
      i := i + 1;
    }
    MirrorSpanHalf(Gather(ranks));
    ReversedOnRanks(ranks, out, v, p);
  }

  /** An iteration of the lockstep loop extends the mirrored span of the gathered image by one pair. */
  lemma StepExtendsMirror(all: seq<Row>, cur: seq<seq<Row>>, v: nat, p: nat, i: nat)
    requires WellFormed(cur, v, p) && |all| == v && i < v / 2
    requires Gather(cur) == MirrorSpan(all, 0, i)
    ensures Gather(Step(cur, v, p, i)) == MirrorSpan(all, 0, i + 1)
  {
    StepSwapsPair(cur, v, p, i);
    MirrorSpanGrow(all, 0, i, Gather(cur));
  }

  /** Per-rank view of a reversed gather: local row `k` of rank `r` holds the
      mirror of global row `Start(r) + k`. */
  lemma ReversedOnRanks(ranks: seq<seq<Row>>, out: seq<seq<Row>>, v: nat, p: nat)
    requires WellFormed(ranks, v, p) && WellFormed(out, v, p)
    requires Gather(out) == ReverseRows(Gather(ranks))
    ensures |Gather(ranks)| == v
    ensures forall r :: 0 <= r < p ==> Start(v, p, r) + LocalRows(v, p, r) <= v
    ensures forall r, k :: 0 <= r < p && 0 <= k < LocalRows(v, p, r) ==>
      out[r][k] == Gather(ranks)[v - 1 - (Start(v, p, r) + k)]
  {
    GatherPrefixLength(ranks, v, p, p);
    assert ranks[..p] == ranks;
    forall r | 0 <= r < p
      ensures Start(v, p, r) + LocalRows(v, p, r) <= v
    {
      BlockBounds(v, p, r);
    }
    forall r, k | 0 <= r < p && 0 <= k < LocalRows(v, p, r)
      ensures out[r][k] == Gather(ranks)[v - 1 - (Start(v, p, r) + k)]
    {
      ReversedAt(ranks, out, v, p, r, k);
    }
  }

  lemma ReversedAt(ranks: seq<seq<Row>>, out: seq<seq<Row>>, v: nat, p: nat, r: nat, k: nat)
    requires WellFormed(ranks, v, p) && WellFormed(out, v, p)
    requires Gather(out) == ReverseRows(Gather(ranks))
    requires r < p && k < LocalRows(v, p, r)
    ensures |Gather(ranks)| == v && Start(v, p, r) + k < v
    ensures out[r][k] == Gather(ranks)[v - 1 - (Start(v, p, r) + k)]
  {
    ScatterGather(ranks, v, p);
    GatherAt(out, v, p, r, k);
  }

  /** For odd `v` the middle row stays where it was, on its owner. */
  lemma MiddleRowStays(ranks: seq<seq<Row>>, v: nat, p: nat, out: seq<seq<Row>>)
    requires WellFormed(ranks, v, p) && WellFormed(out, v, p) && v % 2 == 1
    requires Gather(out) == ReverseRows(Gather(ranks))
    ensures GetMyIdx(v, p, GetRank(v, p, v / 2), v / 2) < LocalRows(v, p, GetRank(v, p, v / 2))
    ensures out[GetRank(v, p, v / 2)][GetMyIdx(v, p, GetRank(v, p, v / 2), v / 2)]
         == ranks[GetRank(v, p, v / 2)][GetMyIdx(v, p, GetRank(v, p, v / 2), v / 2)]
  {
    GatherIndex(ranks, v, p, v / 2);
    GatherIndex(out, v, p, v / 2);
  }

  /** For every pair index of the loop, whether `a` calls `MPI_Sendrecv` naming `b` there. */
  function CallMarks(v: nat, p: nat, a: nat, b: nat): (marks: seq<bool>)
    requires p >= 1 && a < p
    ensures |marks| == v / 2
    ensures forall i :: 0 <= i < v / 2 ==> (marks[i] <==> CallsWith(RoleOf(v, p, a, i), b))
  {
    seq(v / 2, i requires 0 <= i < v / 2 => CallsWith(RoleOf(v, p, a, i), b))
  }

  /** The indices below `n` whose mark is set, in increasing order. */
  function MarkedIndices(marks: seq<bool>, n: nat): (idx: seq<nat>)
    requires n <= |marks|
    ensures forall j :: 0 <= j < |idx| ==> idx[j] < n && marks[idx[j]]
    ensures forall j, k :: 0 <= j < k < |idx| ==> idx[j] < idx[k]
    ensures forall i :: 0 <= i < n && marks[i] ==> i in idx
  {
    if n == 0 then []
    else MarkedIndices(marks, n - 1) + (if marks[n - 1] then [n - 1] else [])
  }

  /** Pair indices below `n` at which `a` calls `MPI_Sendrecv` naming `b`, in loop order. */
  function ExchangeIndices(v: nat, p: nat, a: nat, b: nat, n: nat): (idx: seq<nat>)
    requires p >= 1 && a < p && n <= v / 2
    ensures forall j :: 0 <= j < |idx| ==> idx[j] < n && CallsWith(RoleOf(v, p, a, idx[j]), b)
    ensures forall j, k :: 0 <= j < k < |idx| ==> idx[j] < idx[k]
    ensures forall i :: 0 <= i < n && CallsWith(RoleOf(v, p, a, i), b) ==> i in idx
  {
    MarkedIndices(CallMarks(v, p, a, b), n)
  }

  /** Lockstep matching: the k-th `Sendrecv` of `a` naming `b` is issued at the same pair
      index as the k-th `Sendrecv` of `b` naming `a`, so every call meets its partner's call. */
  lemma LockstepMatching(v: nat, p: nat, a: nat, b: nat, n: nat)
    requires p >= 1 && a < p && b < p && n <= v / 2
    ensures ExchangeIndices(v, p, a, b, n) == ExchangeIndices(v, p, b, a, n)
  {
    forall i | 0 <= i < v / 2
      ensures CallMarks(v, p, a, b)[i] == CallMarks(v, p, b, a)[i]
    {
      RolesPaired(v, p, i, a, b);
    }
    assert CallMarks(v, p, a, b) == CallMarks(v, p, b, a);
  }

  /** `FlipImageH` on one rank's local rows: every row mirrored, no coordination. */
  method FlipImageH(local: seq<Row>, hp: nat) returns (out: seq<Row>)
    requires forall k :: 0 <= k < |local| ==> 3 * hp <= |local[k]|
    ensures out == MirrorEachRow(local, hp)
  {
    out := local;
    var row := 0;
    while row < |local|
      invariant 0 <= row <= |local| && |out| == |local|
      invariant forall k :: 0 <= k < row ==> out[k] == MirrorPixels(local[k], hp)
      invariant forall k :: row <= k < |local| ==> out[k] == local[k]
    {
      var flipped := PixelSwap.ReverseRowPixels(out[row], hp);
      out := out[row := flipped];
      row := row + 1;
    }
  }

  /** Mirroring every rank's rows and gathering equals mirroring the gathered image:
      the horizontal flip needs no exchange. */
  lemma {:induction false} FlipHNeedsNoExchange(ranks: seq<Image>, hp: nat)
    requires forall r, k :: 0 <= r < |ranks| && 0 <= k < |ranks[r]| ==> 3 * hp <= |ranks[r][k]|
    ensures forall k :: 0 <= k < |Gather(ranks)| ==> 3 * hp <= |Gather(ranks)[k]|
    ensures Gather(seq(|ranks|, r requires 0 <= r < |ranks| => MirrorEachRow(ranks[r], hp)))
         == MirrorEachRow(Gather(ranks), hp)
    decreases |ranks|
  {
    var flipped := seq(|ranks|, r requires 0 <= r < |ranks| => MirrorEachRow(ranks[r], hp));
    if |ranks| > 0 {
      var init := ranks[..|ranks| - 1];
      FlipHNeedsNoExchange(init, hp);
      assert flipped[..|ranks| - 1] == seq(|init|, r requires 0 <= r < |init| => MirrorEachRow(init[r], hp));
      assert Gather(ranks) == Gather(init) + ranks[|ranks| - 1];
      assert Gather(flipped) == Gather(flipped[..|ranks| - 1]) + flipped[|ranks| - 1];
    }
  }
}
