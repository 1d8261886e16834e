/** Replaying the event log into the four registers (TDEventLogActor._replay_single_rtmr, replay;
    RTMR). SHA-384 (section 6.5 of FIPS 180-4) is any function to 48 bytes. */
module Replay {
  import opened Outcomes
  import opened Bytes
  import opened EventLog

  const RTMR_COUNT := 4
  const RTMR_LENGTH := 48

  type Register = s: Blob | |s| == RTMR_LENGTH
    witness [0, 0, 0, 0, 0, 0, 0, 0, 0, 0, 0, 0, 0, 0, 0, 0, 0, 0, 0, 0, 0, 0, 0, 0,
             0, 0, 0, 0, 0, 0, 0, 0, 0, 0, 0, 0, 0, 0, 0, 0, 0, 0, 0, 0, 0, 0, 0, 0]

  type Sha = Blob -> Register

  function Zero(): Register { Fill(0, RTMR_LENGTH) }

  /** The rolling hash over a list of digests, from 48 zero bytes. */
  function Fold(sha: Sha, ds: seq<Blob>): Register {
    if ds == [] then Zero() else sha(Fold(sha, ds[..|ds| - 1]) + ds[|ds| - 1])
  }

  // ---- the replayed value binds the log ----

  datatype Evidence = Collision(x: Blob, y: Blob) | ZeroPreimage(x: Blob)

  /** Two different inputs with one hash, or an input that hashes to 48 zero bytes. */
  predicate Breaks(sha: Sha, e: Evidence) {
    match e
    case Collision(x, y) => x != y && sha(x) == sha(y)
    case ZeroPreimage(x) => forall i :: 0 <= i < 48 ==> sha(x)[i] == 0
  }

  /** The last input hashed when replaying a nonempty list. */
  function LastInput(sha: Sha, ds: seq<Blob>): Blob
    requires ds != []
  {
    Fold(sha, ds[..|ds| - 1]) + ds[|ds| - 1]
  }

  /** The evidence computed from two different lists, walking both from their ends. */
  function Expose(sha: Sha, a: seq<Blob>, b: seq<Blob>): Evidence
    requires a != b
  {
    if a == [] then ZeroPreimage(LastInput(sha, b))
    else if b == [] then ZeroPreimage(LastInput(sha, a))
    else if LastInput(sha, a) != LastInput(sha, b) then Collision(LastInput(sha, a), LastInput(sha, b))
    else if a[..|a| - 1] == b[..|b| - 1] then Collision([], [])
    else Expose(sha, a[..|a| - 1], b[..|b| - 1])
  }

  /** Two different digest lists that replay to one register value give a collision of SHA-384
      or, only if their lengths differ, a preimage of zero; both are computed from the lists. */
  lemma {:induction false} ReplayBinds(sha: Sha, a: seq<Blob>, b: seq<Blob>)
    requires a != b && Fold(sha, a) == Fold(sha, b)
    ensures Breaks(sha, Expose(sha, a, b))
    ensures |a| == |b| ==> Expose(sha, a, b).Collision?
    decreases |a|
  {
    if a != [] && b != [] && LastInput(sha, a) == LastInput(sha, b) {
      var fa, fb := a[..|a| - 1], b[..|b| - 1];
      SamePieces(Fold(sha, fa), a[|a| - 1], Fold(sha, fb), b[|b| - 1]);
      assert a == fa + [a[|a| - 1]] && b == fb + [b[|b| - 1]];
      ReplayBinds(sha, fa, fb);
    }
  }

  /** The register has a fixed length, so the input determines register and digest. */
  lemma SamePieces(p: Register, u: Blob, q: Register, v: Blob)
    requires p + u == q + v
    ensures p == q && u == v
  {
    assert p == (p + u)[..RTMR_LENGTH] && q == (q + v)[..RTMR_LENGTH];
    assert u == (p + u)[RTMR_LENGTH..] && v == (q + v)[RTMR_LENGTH..];
  }

  // ---- batch replay and the hardware ----

  /** An entry that replay can use: a register it knows and a first digest. */
  predicate Measured(e: Entry) { 0 <= e.rtmr < RTMR_COUNT && e.digests != [] }

  predicate AllMeasured(es: seq<Entry>) { forall i :: 0 <= i < |es| ==> Measured(es[i]) }

  /** The first digests of the entries of one register, in order. */
  function DigestsFor(es: seq<Entry>, reg: int): seq<Blob>
    requires AllMeasured(es)
  {
    if es == [] then []
    else
      var last := es[|es| - 1];
      DigestsFor(es[..|es| - 1], reg) + (if last.rtmr == reg then [last.digests[0]] else [])
  }

  /** The registers that replay computes: one fold per register. */
  function Registers(sha: Sha, es: seq<Entry>): map<int, Register>
    requires AllMeasured(es)
  {
    map[0 := Fold(sha, DigestsFor(es, 0)), 1 := Fold(sha, DigestsFor(es, 1)),
        2 := Fold(sha, DigestsFor(es, 2)), 3 := Fold(sha, DigestsFor(es, 3))]
  }

  /** The registers as the hardware updates them: one extension per event. */
  function Hardware(sha: Sha, es: seq<Entry>): (regs: seq<Register>)
    requires AllMeasured(es)
    ensures |regs| == RTMR_COUNT
  {
    if es == [] then [Zero(), Zero(), Zero(), Zero()]
    else
      var before, e := Hardware(sha, es[..|es| - 1]), es[|es| - 1];
      before[e.rtmr := sha(before[e.rtmr] + e.digests[0])]
  }

  lemma FoldMore(sha: Sha, ds: seq<Blob>, d: Blob)
    ensures Fold(sha, ds + [d]) == sha(Fold(sha, ds) + d)
  {
    assert (ds + [d])[..|ds|] == ds;
  }

  /** The four registers as replay stores them. */
  function AsMap(regs: seq<Register>): map<int, Register>
    requires |regs| == RTMR_COUNT
  {
    map[0 := regs[0], 1 := regs[1], 2 := regs[2], 3 := regs[3]]
  }

  /** Partitioning the events by register and folding each part gives what one extension per event
      gives, for every interleaving. */
  lemma BatchIsHardware(sha: Sha, es: seq<Entry>)
    requires AllMeasured(es)
    ensures Registers(sha, es) == AsMap(Hardware(sha, es))
  {
    hide Fold, DigestsFor, Hardware;
    HardwareFolds(sha, es, 0); HardwareFolds(sha, es, 1); HardwareFolds(sha, es, 2); HardwareFolds(sha, es, 3);
  }

  lemma {:induction false} HardwareFolds(sha: Sha, es: seq<Entry>, reg: nat)
    requires AllMeasured(es) && reg < RTMR_COUNT
    ensures Hardware(sha, es)[reg] == Fold(sha, DigestsFor(es, reg))
    decreases |es|
  {
    hide Fold, DigestsFor, Zero;
    if es == [] {
      FoldNone(sha);
      NoDigestsFor(reg);
    } else {
      var front, last := es[..|es| - 1], es[|es| - 1];
      HardwareFolds(sha, front, reg);
      FoldMore(sha, DigestsFor(front, reg), last.digests[0]);
      LastDigestFor(es, reg);
    }
  }

  /** What the replayed value of a list of digests is: 48 zero bytes for none, and otherwise the hash of the
      value before the last digest followed by that digest. */
  lemma FoldLaw(sha: Sha, ds: seq<Blob>, d: Blob)
    ensures |Fold(sha, [])| == 48 && forall i :: 0 <= i < 48 ==> Fold(sha, [])[i] == 0
    ensures Fold(sha, ds + [d]) == sha(Fold(sha, ds) + d)
  {
    FoldMore(sha, ds, d);
  }

  /** The hardware starts from zero bytes and extends the event's register only. */
  lemma HardwareLaw(sha: Sha, es: seq<Entry>, e: Entry)
    requires AllMeasured(es) && Measured(e)
    ensures AllMeasured(es + [e])
    ensures forall reg, i :: 0 <= reg < 4 && 0 <= i < 48 ==> Hardware(sha, [])[reg][i] == 0
    ensures var before, after := Hardware(sha, es), Hardware(sha, es + [e]);
      && after[e.rtmr] == sha(before[e.rtmr] + e.digests[0])
      && forall reg :: 0 <= reg < 4 && reg != e.rtmr ==> after[reg] == before[reg]
  {
    assert (es + [e])[..|es|] == es;
  }

  lemma NoDigestsFor(reg: int)
    ensures DigestsFor([], reg) == []
  {
  }

  lemma LastDigestFor(es: seq<Entry>, reg: int)
    requires es != [] && AllMeasured(es)
    ensures var front, last := es[..|es| - 1], es[|es| - 1];
      DigestsFor(es, reg)
      == if last.rtmr == reg then DigestsFor(front, reg) + [last.digests[0]] else DigestsFor(front, reg)
  {
    assert DigestsFor(es[..|es| - 1], reg) + [] == DigestsFor(es[..|es| - 1], reg);
  }

  lemma FoldNone(sha: Sha)
    ensures Fold(sha, []) == Zero()
  {
  }

  lemma {:induction false} DigestsForConcat(a: seq<Entry>, b: seq<Entry>, reg: int)
    requires AllMeasured(a) && AllMeasured(b)
    ensures AllMeasured(a + b) && DigestsFor(a + b, reg) == DigestsFor(a, reg) + DigestsFor(b, reg)
    decreases |b|
  {
    assert AllMeasured(a + b);
    if b == [] {
      assert a + b == a;
    } else {
      DigestsForConcat(a, b[..|b| - 1], reg);
      assert (a + b)[..|a + b| - 1] == a + b[..|b| - 1];
    }
  }

  /** Only the order within each register matters. */
  lemma SameStreams(sha: Sha, es: seq<Entry>, fs: seq<Entry>)
    requires AllMeasured(es) && AllMeasured(fs)
    requires forall i :: 0 <= i < RTMR_COUNT ==> DigestsFor(es, i) == DigestsFor(fs, i)
    ensures Hardware(sha, es) == Hardware(sha, fs)
  {
    hide Hardware, Fold, DigestsFor, Registers;
    forall i | 0 <= i < RTMR_COUNT ensures Hardware(sha, es)[i] == Hardware(sha, fs)[i] {
      HardwareFolds(sha, es, i);
      HardwareFolds(sha, fs, i);
    }
  }

  /** Swapping neighbouring events of different registers changes nothing. */
  lemma SwapKeepsRegisters(sha: Sha, before: seq<Entry>, x: Entry, y: Entry, after: seq<Entry>)
    requires AllMeasured(before) && Measured(x) && Measured(y) && AllMeasured(after) && x.rtmr != y.rtmr
    ensures AllMeasured(before + [x, y] + after) && AllMeasured(before + [y, x] + after)
    ensures Hardware(sha, before + [x, y] + after) == Hardware(sha, before + [y, x] + after)
  {
    hide Hardware, DigestsFor;
    assert AllMeasured([x, y]) && AllMeasured([y, x]);
    forall i | 0 <= i < RTMR_COUNT
      ensures AllMeasured(before + [x, y] + after) && AllMeasured(before + [y, x] + after)
      ensures DigestsFor(before + [x, y] + after, i) == DigestsFor(before + [y, x] + after, i)
    {
      DigestsForConcat(before, [x, y], i);
      DigestsForConcat(before + [x, y], after, i);
      DigestsForConcat(before, [y, x], i);
      DigestsForConcat(before + [y, x], after, i);
      PairDigests(x, y, i);
      PairDigests(y, x, i);
    }
    SameStreams(sha, before + [x, y] + after, before + [y, x] + after);
  }

  lemma PairDigests(x: Entry, y: Entry, reg: int)
    requires Measured(x) && Measured(y)
    ensures AllMeasured([x, y])
    ensures DigestsFor([x, y], reg)
         == (if x.rtmr == reg then [x.digests[0]] else []) + (if y.rtmr == reg then [y.digests[0]] else [])
  {
    assert [x, y][..1] == [x] && [x][..0] == [];
    assert DigestsFor([x], reg) == DigestsFor([], reg) + (if x.rtmr == reg then [x.digests[0]] else []);
  }

  /** Two logs with the same four registers measured the same digests in the same order, register by
      register, or break SHA-384. */
  lemma RegistersBind(sha: Sha, es: seq<Entry>, fs: seq<Entry>, reg: int)
    requires AllMeasured(es) && AllMeasured(fs) && Registers(sha, es) == Registers(sha, fs)
    requires 0 <= reg < RTMR_COUNT && DigestsFor(es, reg) != DigestsFor(fs, reg)
    ensures Breaks(sha, Expose(sha, DigestsFor(es, reg), DigestsFor(fs, reg)))
  {
    hide DigestsFor, Fold;
    assert Registers(sha, es)[reg] == Registers(sha, fs)[reg];
    ReplayBinds(sha, DigestsFor(es, reg), DigestsFor(fs, reg));
  }

  /** RTMR.__eq__: the first 48 bytes of both values; shorter data fails an assertion. */
  function RtmrEquals(a: Blob, b: Blob): Result<bool> {
    var x :- GetBytes(a, 0, RTMR_LENGTH);
    var y :- GetBytes(b, 0, RTMR_LENGTH);
    Success(x.value == y.value)
  }

  /** On register values the comparison is equality: verification passes exactly when the replayed
      and the reported register agree. */
  lemma RtmrEqualsIsEquality(a: Register, b: Register)
    ensures RtmrEquals(a, b) == Success(a == b)
  {
    assert a[0..RTMR_LENGTH] == a && b[0..RTMR_LENGTH] == b;
  }
}
