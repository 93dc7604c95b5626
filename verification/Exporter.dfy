/**
 * The ELK exporter's buffer under concurrent exports and flushes (internal/exporter/elk.go). Each step is one
 * stretch of code run while holding bufferMutex; a flush is two steps, since the lock is dropped around BulkIndex.
 */
module Exporter {
  import opened Arithmetic

  type Document = map<string, string>

  const TIMESTAMP := "@timestamp"

  datatype Config = Config(enabled: bool, batchSize: int)

  /** `inFlight` holds the batches handed to BulkIndex and not yet answered; `delivered` is what the server took. */
  datatype State = State(buffer: seq<Document>, inFlight: seq<seq<Document>>, delivered: seq<Document>)

  datatype Step =
    | Export(event: Document, now: string)   // append, and start a flush when the batch is full
    | FlushStart                             // Flush, the ticker, or one of the final flushes of Close
    | FlushEnd(batch: nat, ok: bool)         // BulkIndex returned for one of the batches in flight

  type Run = seq<Step>

  const EMPTY := State([], [], [])

  function Stamped(event: Document, now: string): Document {
    if TIMESTAMP in event then event else event[TIMESTAMP := now]
  }

  function Without<T>(s: seq<T>, i: nat): seq<T>
    requires i < |s|
  {
    s[..i] + s[i + 1..]
  }

  function TakeBuffer(st: State): State {
    if st.buffer == [] then st else State([], st.inFlight + [st.buffer], st.delivered)
  }

  function Next(cfg: Config, st: State, step: Step): State {
    match step
    case Export(event, now) =>
      if !cfg.enabled then st
      else
        var appended := st.(buffer := st.buffer + [Stamped(event, now)]);
        if |appended.buffer| >= cfg.batchSize then TakeBuffer(appended) else appended
    case FlushStart => TakeBuffer(st)
    case FlushEnd(i, ok) =>
      if i >= |st.inFlight| then st
      else if ok then State(st.buffer, Without(st.inFlight, i), st.delivered + st.inFlight[i])
      else State(st.inFlight[i] + st.buffer, Without(st.inFlight, i), st.delivered)
  }

  function StateAfter(cfg: Config, run: Run): State {
    if run == [] then EMPTY else Next(cfg, StateAfter(cfg, run[..|run| - 1]), run[|run| - 1])
  }

  /** The documents the run exported, in order. */
  function Exported(cfg: Config, run: Run): seq<Document> {
    if run == [] then []
    else Exported(cfg, run[..|run| - 1]) + ExportedBy(cfg, run[|run| - 1])
  }

  function ExportedBy(cfg: Config, step: Step): seq<Document> {
    if step.Export? && cfg.enabled then [Stamped(step.event, step.now)] else []
  }

  // ---------------------------------------------------------------- one export

  /** The exported document is the event, with the time of export where the event has no time of its own. */
  ghost predicate StampOf(doc: Document, event: Document, now: string) {
    && doc.Keys == event.Keys + {"@timestamp"}
    && (forall k :: k in event ==> doc[k] == event[k])
    && ("@timestamp" !in event ==> doc["@timestamp"] == now)
  }

  /** An export appends one stamped document, and takes the whole buffer as a batch exactly when it is full with it. */
  lemma ExportExactly(cfg: Config, st: State, event: Document, now: string) returns (doc: Document)
    ensures StampOf(doc, event, now)
    ensures ExportedBy(cfg, Export(event, now)) == if cfg.enabled then [doc] else []
    ensures Next(cfg, st, Export(event, now))
            == if !cfg.enabled then st
               else if |st.buffer| + 1 < cfg.batchSize then State(st.buffer + [doc], st.inFlight, st.delivered)
               else State([], st.inFlight + [st.buffer + [doc]], st.delivered)
  {
    doc := Stamped(event, now);
  }

  /** The run has no failed answer and no flush but those exports start. */
  predicate OnlyFullBatches(run: Run) {
    forall i :: 0 <= i < |run| ==> !run[i].FlushStart? && (run[i].FlushEnd? ==> run[i].ok)
  }

  /** While sends succeed, exports alone send batches of exactly the batch size, and fewer documents wait than that. */
  lemma {:induction false} FullBatches(cfg: Config, run: Run)
    requires cfg.batchSize >= 1 && OnlyFullBatches(run)
    ensures var st := StateAfter(cfg, run);
            && |st.buffer| < cfg.batchSize
            && (forall i :: 0 <= i < |st.inFlight| ==> |st.inFlight[i]| == cfg.batchSize)
            && |st.delivered| % cfg.batchSize == 0
  {
    if run != [] {
      var p, step := run[..|run| - 1], run[|run| - 1];
      var st := StateAfter(cfg, p);
      assert step == run[|run| - 1];
      assert OnlyFullBatches(p) by {
        forall i | 0 <= i < |p|
          ensures !p[i].FlushStart? && (p[i].FlushEnd? ==> p[i].ok)
        {
          assert p[i] == run[i];
        }
      }
      FullBatches(cfg, p);
      match step
      case Export(event, now) =>
        var doc := ExportExactly(cfg, st, event, now);
      case FlushStart =>
      case FlushEnd(i, ok) =>
        if i < |st.inFlight| {
          OneMoreMultiple(|st.delivered|, cfg.batchSize);
        }
    }
  }

  lemma OneMoreMultiple(n: nat, d: nat)
    requires d > 0 && n % d == 0
    ensures (n + d) % d == 0
  {
    var q := n / d;
    assert n + d == d * (q + 1);
    MultipleHasNoRemainder(q + 1, d);
  }

  // ---------------------------------------------------------------- conservation

  function Documents(batches: seq<seq<Document>>): multiset<Document> {
    if batches == [] then multiset{} else multiset(batches[0]) + Documents(batches[1..])
  }

  lemma {:induction false} DocumentsAppend(batches: seq<seq<Document>>, b: seq<Document>)
    ensures Documents(batches + [b]) == Documents(batches) + multiset(b)
  {
    if batches == [] {
      assert ([b] + [])[1..] == [];
      assert batches + [b] == [b];
    } else {
      assert (batches + [b])[1..] == batches[1..] + [b];
      DocumentsAppend(batches[1..], b);
    }
  }

  lemma {:induction false} DocumentsWithout(batches: seq<seq<Document>>, i: nat)
    requires i < |batches|
    ensures Documents(batches) == Documents(Without(batches, i)) + multiset(batches[i])
  {
    if i == 0 {
      assert Without(batches, 0) == batches[1..];
    } else {
      assert Without(batches, i)[1..] == Without(batches[1..], i - 1);
      DocumentsWithout(batches[1..], i - 1);
    }
  }

  function Everything(st: State): multiset<Document> {
    multiset(st.delivered) + Documents(st.inFlight) + multiset(st.buffer)
  }

  lemma TakeConserves(st: State)
    ensures Everything(TakeBuffer(st)) == Everything(st)
  {
    DocumentsAppend(st.inFlight, st.buffer);
  }

  lemma NextConserves(cfg: Config, st: State, step: Step)
    ensures Everything(Next(cfg, st, step)) == Everything(st) + multiset(ExportedBy(cfg, step))
  {
    match step
    case Export(event, now) =>
      if cfg.enabled {
        TakeConserves(st.(buffer := st.buffer + [Stamped(event, now)]));
      }
    case FlushStart => TakeConserves(st);
    case FlushEnd(i, ok) =>
      if i < |st.inFlight| {
        DocumentsWithout(st.inFlight, i);
      }
  }

  /**
   * No document is lost or duplicated: at every point of every interleaving, what was exported is what was
   * delivered, what is in flight and what is buffered.
   */
  lemma {:induction false} Conservation(cfg: Config, run: Run)
    ensures multiset(Exported(cfg, run)) == Everything(StateAfter(cfg, run))
  {
    if run != [] {
      Conservation(cfg, run[..|run| - 1]);
      NextConserves(cfg, StateAfter(cfg, run[..|run| - 1]), run[|run| - 1]);
    }
  }

  // ---------------------------------------------------------------- order

  function Flat(batches: seq<seq<Document>>): seq<Document> {
    if batches == [] then [] else batches[0] + Flat(batches[1..])
  }

  /** What was delivered, what is in flight and what is buffered, in that order. */
  function Line(st: State): seq<Document> {
    st.delivered + Flat(st.inFlight) + st.buffer
  }

  lemma {:induction false} FlatAppend(batches: seq<seq<Document>>, b: seq<Document>)
    ensures Flat(batches + [b]) == Flat(batches) + b
  {
    if batches == [] {
      assert batches + [b] == [b] && [b][1..] == [];
      assert Flat([b]) == b + [];
    } else {
      assert (batches + [b])[1..] == batches[1..] + [b];
      FlatAppend(batches[1..], b);
    }
  }

  lemma {:induction false} FlatSplit(batches: seq<seq<Document>>, i: nat)
    requires i <= |batches|
    ensures Flat(batches) == Flat(batches[..i]) + Flat(batches[i..])
  {
    if i == 0 {
      assert batches[..0] == [] && batches[0..] == batches;
    } else {
      assert batches[..i][1..] == batches[1..][..i - 1] && batches[i..] == batches[1..][i - 1..];
      FlatSplit(batches[1..], i - 1);
    }
  }

  /** The flight with one batch singled out, and without it. */
  lemma FlatAround(batches: seq<seq<Document>>, i: nat)
    requires i < |batches|
    ensures Flat(batches) == Flat(batches[..i]) + batches[i] + Flat(batches[i + 1..])
    ensures Flat(Without(batches, i)) == Flat(batches[..i]) + Flat(batches[i + 1..])
  {
    FlatSplit(batches, i);
    assert batches[i..][1..] == batches[i + 1..];
    FlatSplit(Without(batches, i), i);
    assert Without(batches, i)[..i] == batches[..i] && Without(batches, i)[i..] == batches[i + 1..];
  }

  /** An answer that keeps the order: the oldest batch when it was sent, the youngest when it goes back. */
  predicate InTurn(st: State, step: Step) {
    step.FlushEnd? && step.batch < |st.inFlight| ==>
      if step.ok then step.batch == 0 else step.batch == |st.inFlight| - 1
  }

  /** Every answer of the run is in turn. */
  predicate AnsweredInTurn(cfg: Config, run: Run) {
    run == []
    || (AnsweredInTurn(cfg, run[..|run| - 1]) && InTurn(StateAfter(cfg, run[..|run| - 1]), run[|run| - 1]))
  }

  lemma TakeKeepsLine(st: State)
    ensures Line(TakeBuffer(st)) == Line(st)
  {
    FlatAppend(st.inFlight, st.buffer);
  }

  lemma InTurnKeepsLine(cfg: Config, st: State, step: Step)
    requires InTurn(st, step)
    ensures Line(Next(cfg, st, step)) == Line(st) + ExportedBy(cfg, step)
  {
    match step
    case Export(event, now) =>
      if cfg.enabled {
        TakeKeepsLine(st.(buffer := st.buffer + [Stamped(event, now)]));
      }
    case FlushStart => TakeKeepsLine(st);
    case FlushEnd(i, ok) =>
      if i < |st.inFlight| {
        AnswerKeepsLine(cfg, st, i, ok);
      }
  }

  lemma AnswerKeepsLine(cfg: Config, st: State, i: nat, ok: bool)
    requires i < |st.inFlight| && InTurn(st, FlushEnd(i, ok))
    ensures Line(Next(cfg, st, FlushEnd(i, ok))) == Line(st)
  {
    FlatAround(st.inFlight, i);
    if ok {
      assert st.inFlight[..0] == [];
    } else {
      assert st.inFlight[i + 1..] == [];
    }
  }

  ghost predicate NoRepeats<T>(s: seq<T>) {
    forall i, j :: 0 <= i < j < |s| ==> s[i] != s[j]
  }

  ghost predicate NoEmptyBatch(st: State) {
    forall i :: 0 <= i < |st.inFlight| ==> st.inFlight[i] != []
  }

  lemma {:induction false} NeverEmptyBatch(cfg: Config, run: Run)
    ensures NoEmptyBatch(StateAfter(cfg, run))
  {
    if run != [] {
      NeverEmptyBatch(cfg, run[..|run| - 1]);
    }
  }

  /** An answer out of turn disturbs the line of distinct documents. */
  lemma OutOfTurnBreaksLine(cfg: Config, st: State, step: Step)
    requires !InTurn(st, step) && NoEmptyBatch(st) && NoRepeats(Line(st))
    ensures Line(Next(cfg, st, step)) != Line(st) + ExportedBy(cfg, step)
  {
    if step.ok {
      EarlyDelivery(cfg, st, step.batch);
    } else {
      EarlyReturn(cfg, st, step.batch);
    }
  }

  lemma EarlyDelivery(cfg: Config, st: State, i: nat)
    requires 0 < i < |st.inFlight| && NoEmptyBatch(st) && NoRepeats(Line(st))
    ensures Line(Next(cfg, st, FlushEnd(i, true))) != Line(st)
  {
    FlatAround(st.inFlight, i);
    var a, b, c := Flat(st.inFlight[..i]), st.inFlight[i], Flat(st.inFlight[i + 1..]);
    assert st.inFlight[..i][0] != [] && a == st.inFlight[..i][0] + Flat(st.inFlight[..i][1..]);
    assert Line(st) == st.delivered + a + b + (c + st.buffer);
    assert Line(Next(cfg, st, FlushEnd(i, true))) == st.delivered + b + a + (c + st.buffer);
    SwappedDiffers(st.delivered, a, b, c + st.buffer);
  }

  lemma EarlyReturn(cfg: Config, st: State, i: nat)
    requires i < |st.inFlight| - 1 && NoEmptyBatch(st) && NoRepeats(Line(st))
    ensures Line(Next(cfg, st, FlushEnd(i, false))) != Line(st)
  {
    FlatAround(st.inFlight, i);
    var a, b, c := Flat(st.inFlight[..i]), st.inFlight[i], Flat(st.inFlight[i + 1..]);
    assert st.inFlight[i + 1..][0] != [] && c == st.inFlight[i + 1..][0] + Flat(st.inFlight[i + 1..][1..]);
    assert Line(st) == st.delivered + a + b + c + st.buffer;
    assert Line(Next(cfg, st, FlushEnd(i, false))) == st.delivered + a + c + b + st.buffer;
    SwappedDiffers(st.delivered + a, b, c, st.buffer);
  }

  lemma SwappedDiffers<T>(pre: seq<T>, a: seq<T>, b: seq<T>, post: seq<T>)
    requires a != [] && b != [] && NoRepeats(pre + a + b + post)
    ensures pre + b + a + post != pre + a + b + post
  {
    var s, t := pre + a + b + post, pre + b + a + post;
    assert s[|pre|] == a[0] && t[|pre|] == b[0] && s[|pre| + |a|] == b[0];
  }

  lemma ExportedPrefix(cfg: Config, run: Run)
    requires run != []
    ensures Exported(cfg, run) == Exported(cfg, run[..|run| - 1]) + ExportedBy(cfg, run[|run| - 1])
    ensures NoRepeats(Exported(cfg, run)) ==> NoRepeats(Exported(cfg, run[..|run| - 1]))
  {
    var e, p := Exported(cfg, run), Exported(cfg, run[..|run| - 1]);
    assert forall i :: 0 <= i < |p| ==> e[i] == p[i];
  }

  /** At every point of the run, delivered, in flight and buffered together are the export order so far. */
  predicate OrderKept(cfg: Config, run: Run) {
    Line(StateAfter(cfg, run)) == Exported(cfg, run) && (run == [] || OrderKept(cfg, run[..|run| - 1]))
  }

  /** Answers in turn keep the order, whatever overlaps and whatever fails. */
  lemma {:induction false} InTurnKeepsOrder(cfg: Config, run: Run)
    requires AnsweredInTurn(cfg, run)
    ensures OrderKept(cfg, run)
  {
    if run != [] {
      var p, step := run[..|run| - 1], run[|run| - 1];
      InTurnKeepsOrder(cfg, p);
      InTurnKeepsLine(cfg, StateAfter(cfg, p), step);
    }
  }

  /**
   * The exact condition for export order, for distinct documents: it is kept throughout a run if and only if every
   * batch is answered in turn, oldest first for deliveries and youngest first for failures.
   */
  lemma {:induction false} OrderExactly(cfg: Config, run: Run)
    requires NoRepeats(Exported(cfg, run))
    ensures OrderKept(cfg, run) <==> AnsweredInTurn(cfg, run)
  {
    if AnsweredInTurn(cfg, run) {
      InTurnKeepsOrder(cfg, run);
    } else {
      var p, step := run[..|run| - 1], run[|run| - 1];
      ExportedPrefix(cfg, run);
      OrderExactly(cfg, p);
      if AnsweredInTurn(cfg, p) {
        NeverEmptyBatch(cfg, p);
        OutOfTurnBreaksLine(cfg, StateAfter(cfg, p), step);
      }
    }
  }

  /** At no point are two batches in flight at once. */
  predicate FlushesDoNotOverlap(cfg: Config, run: Run) {
    |StateAfter(cfg, run).inFlight| <= 1 && (run == [] || FlushesDoNotOverlap(cfg, run[..|run| - 1]))
  }

  /** In particular order is kept while flushes do not overlap, even after failed sends. */
  lemma {:induction false} ExportOrder(cfg: Config, run: Run)
    requires FlushesDoNotOverlap(cfg, run)
    ensures AnsweredInTurn(cfg, run) && OrderKept(cfg, run)
  {
    if run != [] {
      ExportOrder(cfg, run[..|run| - 1]);
    }
    InTurnKeepsOrder(cfg, run);
  }

  /** Overlapping flushes can deliver out of order: the second batch may be answered first. */
  lemma OverlapReorders(cfg: Config, a: Document, b: Document)
    requires cfg == Config(true, 1) && TIMESTAMP in a && TIMESTAMP in b
    ensures var run := [Export(a, ""), Export(b, ""), FlushEnd(1, true), FlushEnd(0, true)];
            StateAfter(cfg, run) == State([], [], [b, a]) && Exported(cfg, run) == [a, b]
  {
    var r1 := [Export(a, "")];
    var r2 := r1 + [Export(b, "")];
    var r3 := r2 + [FlushEnd(1, true)];
    var r4 := r3 + [FlushEnd(0, true)];
    LastStep(cfg, [], Export(a, ""));
    LastStep(cfg, r1, Export(b, ""));
    LastStep(cfg, r2, FlushEnd(1, true));
    LastStep(cfg, r3, FlushEnd(0, true));
    assert [] + [Export(a, "")] == r1;
    assert Without([[a], [b]], 1) == [[a]] && Without([[a]], 0) == [];
    assert r4 == [Export(a, ""), Export(b, ""), FlushEnd(1, true), FlushEnd(0, true)];
  }

  lemma LastStep(cfg: Config, run: Run, step: Step)
    ensures StateAfter(cfg, run + [step]) == Next(cfg, StateAfter(cfg, run), step)
    ensures Exported(cfg, run + [step]) == Exported(cfg, run) + ExportedBy(cfg, step)
  {
    assert (run + [step])[..|run|] == run;
  }

  // ---------------------------------------------------------------- closing

  /** The document is in a batch in flight or in the buffer. */
  ghost predicate Pending(st: State, d: Document) {
    d in Flat(st.inFlight) || d in st.buffer
  }

  /** What was delivered stays delivered, and what was exported stays exported. */
  lemma {:induction false} OnlyGrows(cfg: Config, pre: Run, mid: Run)
    ensures StateAfter(cfg, pre).delivered <= StateAfter(cfg, pre + mid).delivered
    ensures Exported(cfg, pre) <= Exported(cfg, pre + mid)
    decreases |mid|
  {
    hide Next;
    if mid == [] {
      assert pre + mid == pre;
    } else {
      var m := mid[..|mid| - 1];
      assert pre + mid == pre + m + [mid[|mid| - 1]];
      OnlyGrows(cfg, pre, m);
      LastStep(cfg, pre + m, mid[|mid| - 1]);
      NextGrows(cfg, StateAfter(cfg, pre + m), mid[|mid| - 1]);
    }
  }

  lemma NextGrows(cfg: Config, st: State, step: Step)
    ensures st.delivered <= Next(cfg, st, step).delivered
  {
  }

  lemma {:induction false} FlatIsDocuments(batches: seq<seq<Document>>)
    ensures multiset(Flat(batches)) == Documents(batches)
  {
    if batches != [] {
      FlatIsDocuments(batches[1..]);
    }
  }

  /** Conservation for one document of a run of distinct ones: it is delivered exactly when it is not pending. */
  lemma DeliveredOrPending(cfg: Config, run: Run, d: Document)
    requires NoRepeats(Exported(cfg, run)) && d in Exported(cfg, run)
    ensures d in StateAfter(cfg, run).delivered <==> !Pending(StateAfter(cfg, run), d)
  {
    var st := StateAfter(cfg, run);
    Conservation(cfg, run);
    FlatIsDocuments(st.inFlight);
    OnceInMultiset(Exported(cfg, run), d);
    InMultiset(st.delivered, d);
    InMultiset(Flat(st.inFlight), d);
    InMultiset(st.buffer, d);
  }

  lemma InMultiset<T>(s: seq<T>, d: T)
    ensures d in s <==> multiset(s)[d] > 0
  {
    assert d in s <==> d in multiset(s);
  }

  lemma OnceInMultiset<T>(s: seq<T>, d: T)
    requires NoRepeats(s) && d in s
    ensures multiset(s)[d] == 1
  {
    var i :| 0 <= i < |s| && s[i] == d;
    assert s == s[..i] + [d] + s[i + 1..];
    assert d !in s[..i] && d !in s[i + 1..];
  }

  /** What has been exported and not delivered when a flush starts is all in flight once it has started. */
  lemma AllInFlight(cfg: Config, pre: Run, d: Document)
    requires d in Exported(cfg, pre)
    ensures d in StateAfter(cfg, pre).delivered || d in Flat(TakeBuffer(StateAfter(cfg, pre)).inFlight)
    ensures TakeBuffer(StateAfter(cfg, pre)).delivered == StateAfter(cfg, pre).delivered
  {
    var st := StateAfter(cfg, pre);
    Conservation(cfg, pre);
    FlatIsDocuments(st.inFlight);
    FlatAppend(st.inFlight, st.buffer);
    InMultiset(Exported(cfg, pre), d);
    InMultiset(st.delivered, d);
    InMultiset(Flat(st.inFlight), d);
    InMultiset(st.buffer, d);
  }

  lemma InFlightWasExported(cfg: Config, pre: Run, d: Document)
    requires d in Flat(TakeBuffer(StateAfter(cfg, pre)).inFlight)
    ensures d in Exported(cfg, pre)
  {
    var st := StateAfter(cfg, pre);
    Conservation(cfg, pre);
    FlatIsDocuments(st.inFlight);
    FlatAppend(st.inFlight, st.buffer);
    InMultiset(Exported(cfg, pre), d);
    InMultiset(Flat(st.inFlight), d);
    InMultiset(st.buffer, d);
  }

  /**
   * The final flush of Close, with anything at all happening while its batch is being sent: everything exported
   * before it is delivered at the end if and only if nothing that was in flight when it started, its own batch
   * included, is then still in flight or put back into the buffer.
   */
  lemma FinalFlushDelivers(cfg: Config, pre: Run, mid: Run, batch: nat, ok: bool, run: Run)
    requires run == pre + [FlushStart] + mid + [FlushEnd(batch, ok)]
    requires NoRepeats(Exported(cfg, run))
    ensures (forall d :: d in Exported(cfg, pre) ==> d in StateAfter(cfg, run).delivered)
            <==> forall d :: d in Flat(StateAfter(cfg, pre + [FlushStart]).inFlight) ==>
                   !Pending(StateAfter(cfg, run), d)
  {
    LastStep(cfg, pre, FlushStart);
    var rest := [FlushStart] + mid + [FlushEnd(batch, ok)];
    assert run == pre + rest;
    OnlyGrows(cfg, pre, rest);
    var early := Flat(StateAfter(cfg, pre + [FlushStart]).inFlight);
    forall d | d in Exported(cfg, pre)
      ensures d in StateAfter(cfg, run).delivered <==> !Pending(StateAfter(cfg, run), d)
      ensures d in early || d in StateAfter(cfg, run).delivered
    {
      AllInFlight(cfg, pre, d);
      DeliveredOrPending(cfg, run, d);
    }
    forall d | d in early
      ensures d in Exported(cfg, pre)
    {
      InFlightWasExported(cfg, pre, d);
    }
  }

  /** Nothing but answers to batches. */
  predicate OnlyAnswers(answers: Run) {
    forall i :: 0 <= i < |answers| ==> answers[i].FlushEnd?
  }

  /** Every answer that concerns a batch in flight reports success. */
  predicate AllSucceed(cfg: Config, base: Run, answers: Run)
    requires OnlyAnswers(answers)
  {
    answers == []
    || var init, last := answers[..|answers| - 1], answers[|answers| - 1];
       && AllSucceed(cfg, base, init)
       && (last.batch < |StateAfter(cfg, base + init).inFlight| ==> last.ok)
  }

  /** While only answers come in, the buffer stays empty exactly as long as none reports a failure. */
  lemma {:induction false} BufferedByFailure(cfg: Config, base: Run, answers: Run)
    requires OnlyAnswers(answers) && StateAfter(cfg, base).buffer == []
    ensures StateAfter(cfg, base + answers).buffer == [] <==> AllSucceed(cfg, base, answers)
    ensures Exported(cfg, base + answers) == Exported(cfg, base)
  {
    if answers == [] {
      assert base + answers == base;
    } else {
      var init, last := answers[..|answers| - 1], answers[|answers| - 1];
      BufferedByFailure(cfg, base, init);
      assert base + answers == base + init + [last];
      LastStep(cfg, base + init, last);
      NeverEmptyBatch(cfg, base + init);
    }
  }

  lemma PendingIsExported(cfg: Config, run: Run, d: Document)
    requires Pending(StateAfter(cfg, run), d)
    ensures d in Exported(cfg, run)
  {
    var st := StateAfter(cfg, run);
    Conservation(cfg, run);
    FlatIsDocuments(st.inFlight);
    InMultiset(Exported(cfg, run), d);
    InMultiset(Flat(st.inFlight), d);
    InMultiset(st.buffer, d);
  }

  /** Of distinct documents, all are delivered if and only if none is left in the buffer or in flight. */
  lemma AllDelivered(cfg: Config, run: Run)
    requires NoRepeats(Exported(cfg, run))
    ensures var st := StateAfter(cfg, run);
            (forall d :: d in Exported(cfg, run) ==> d in st.delivered) <==> st.buffer == [] && st.inFlight == []
  {
    var st := StateAfter(cfg, run);
    forall d | d in Exported(cfg, run)
      ensures d in st.delivered <==> !Pending(st, d)
    {
      DeliveredOrPending(cfg, run, d);
    }
    NeverEmptyBatch(cfg, run);
    if st.buffer != [] {
      PendingIsExported(cfg, run, st.buffer[0]);
    } else if st.inFlight != [] {
      assert st.inFlight[0][0] in Flat(st.inFlight);
      PendingIsExported(cfg, run, st.inFlight[0][0]);
    }
  }

  /**
   * What Close achieves, in terms of the answers alone, when nothing else runs but the flushes already in flight: all
   * documents are delivered if and only if every answer reports success and every batch gets its answer.
   */
  lemma FinalFlushExactly(cfg: Config, pre: Run, answers: Run)
    requires OnlyAnswers(answers) && NoRepeats(Exported(cfg, pre))
    ensures var base := pre + [FlushStart];
            var st := StateAfter(cfg, base + answers);
            (forall d :: d in Exported(cfg, pre) ==> d in st.delivered)
            <==> AllSucceed(cfg, base, answers) && st.inFlight == []
  {
    var base := pre + [FlushStart];
    LastStep(cfg, pre, FlushStart);
    BufferedByFailure(cfg, base, answers);
    AllDelivered(cfg, base + answers);
  }

  /** Undisturbed and successful, the final flush delivers everything no other flush holds. */
  lemma FinalFlushUndisturbed(cfg: Config, run: Run)
    ensures var st := StateAfter(cfg, run);
            StateAfter(cfg, run + [FlushStart] + [FlushEnd(|st.inFlight|, true)])
            == State([], st.inFlight, st.delivered + st.buffer)
  {
    var st := StateAfter(cfg, run);
    LastStep(cfg, run, FlushStart);
    LastStep(cfg, run + [FlushStart], FlushEnd(|st.inFlight|, true));
    FlushedWhole(cfg, st);
  }

  lemma WithoutLast<T>(s: seq<T>, x: T)
    ensures Without(s + [x], |s|) == s
  {
  }

  lemma FlushedWhole(cfg: Config, st: State)
    ensures Next(cfg, TakeBuffer(st), FlushEnd(|st.inFlight|, true))
            == State([], st.inFlight, st.delivered + st.buffer)
  {
    WithoutLast(st.inFlight, st.buffer);
  }

  /**
   * Close losing documents although its own flush succeeds: an earlier flush fails while the final batch is being
   * sent, and puts its batch back into a buffer nobody flushes again.
   */
  lemma CloseLosesDocuments(cfg: Config, a: Document, b: Document, c: Document)
    requires cfg == Config(true, 2) && TIMESTAMP in a && TIMESTAMP in b && TIMESTAMP in c
    ensures var pre := [Export(a, ""), Export(b, ""), Export(c, "")];
            var closed := pre + [FlushStart] + [FlushEnd(0, false)] + [FlushEnd(0, true)];
            Exported(cfg, pre) == [a, b, c] && StateAfter(cfg, closed) == State([a, b], [], [c])
  {
    var r1 := [Export(a, "")];
    var r2 := r1 + [Export(b, "")];
    var r3 := r2 + [Export(c, "")];
    assert [] + [Export(a, "")] == r1 && r3 == [Export(a, ""), Export(b, ""), Export(c, "")];
    LastStep(cfg, [], Export(a, ""));
    assert StateAfter(cfg, r1) == State([a], [], []);
    LastStep(cfg, r1, Export(b, ""));
    assert [a] + [b] == [a, b];
    assert StateAfter(cfg, r2) == State([], [[a, b]], []);
    LastStep(cfg, r2, Export(c, ""));
    assert StateAfter(cfg, r3) == State([c], [[a, b]], []);
    LastStep(cfg, r3, FlushStart);
    LastStep(cfg, r3 + [FlushStart], FlushEnd(0, false));
    assert Without([[a, b], [c]], 0) == [[c]];
    LastStep(cfg, r3 + [FlushStart] + [FlushEnd(0, false)], FlushEnd(0, true));
    assert Without([[c]], 0) == [];
  }

  // ---------------------------------------------------------------- the exporter object

  class ElkExporter {
    const config: Config
    var buffer: seq<Document>
    var inFlight: seq<seq<Document>>
    var delivered: seq<Document>

    constructor (config: Config)
      ensures this.config == config && Contents() == EMPTY
    {
      this.config := config;
      buffer, inFlight, delivered := [], [], [];
    }

    function Contents(): State
      reads this
    {
      State(buffer, inFlight, delivered)
    }

    /** flushLocked up to the point where it drops the lock; no batch when the buffer is empty. */
    method BeginFlush() returns (sending: bool, batch: nat)
      modifies `buffer, `inFlight
      ensures Contents() == TakeBuffer(old(Contents()))
      ensures sending <==> old(buffer) != []
      ensures sending ==> batch == |old(inFlight)|
    {
      if |buffer| == 0 {
        return false, 0;
      }
      var toSend := buffer;
      buffer := [];
      batch := |inFlight|;
      inFlight := inFlight + [toSend];
      return true, batch;
    }

    /** flushLocked once the lock is held again. */
    method EndFlush(batch: nat, ok: bool)
      requires batch < |inFlight|
      modifies this
      ensures Contents() == Next(config, old(Contents()), FlushEnd(batch, ok))
    {
      var toSend := inFlight[batch];
      inFlight := inFlight[..batch] + inFlight[batch + 1..];
      if ok {
        delivered := delivered + toSend;
      } else {
        buffer := toSend + buffer;
      }
    }

    /** Export up to its return or the point where its flush drops the lock. */
    method ExportEvent(event: Document, now: string) returns (sending: bool, batch: nat)
      modifies `buffer, `inFlight
      ensures Contents() == Next(config, old(Contents()), Export(event, now))
      ensures sending <==> config.enabled && |old(buffer)| + 1 >= config.batchSize
      ensures sending ==> batch == |old(inFlight)| && inFlight[..batch] == old(inFlight) && |inFlight| == batch + 1
      ensures !sending ==> inFlight == old(inFlight)
      ensures config.enabled ==>
                exists doc :: StampOf(doc, event, now)
                              && old(buffer) + [doc] == if sending then inFlight[batch] else buffer
    {
      if !config.enabled {
        return false, 0;
      }
      var stamped := event;
      if TIMESTAMP !in stamped {
        stamped := stamped[TIMESTAMP := now];
      }
      buffer := buffer + [stamped];
      assert StampOf(stamped, event, now);
      if |buffer| >= config.batchSize {
        sending, batch := BeginFlush();
      } else {
        return false, 0;
      }
    }

    /** Flush with nothing else running: either the whole buffer is delivered or nothing changes. */
    method Flush(ok: bool)
      modifies this
      ensures ok ==> buffer == [] && delivered == old(delivered + buffer) && inFlight == old(inFlight)
      ensures !ok ==> Contents() == old(Contents())
    {
      var sending, batch := BeginFlush();
      if sending {
        WithoutLast(old(inFlight), old(buffer));
        EndFlush(batch, ok);
      }
    }
  }
}
