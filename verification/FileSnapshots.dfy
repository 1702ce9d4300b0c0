/**
 The file snapshot store under one key: a writer that may stop anywhere, and any number of readers
 that interleave with it.  Payload files carry a fresh transaction identifier in their name and are
 written before the metadata file is atomically replaced; the files of the previous revision are
 unlinked afterwards.  `commits` is history: every metadata file that was ever installed.
 */
module FileSnapshots {
  import opened Outcomes

  type Items<V> = seq<(string, V)>

  datatype FileName = Arrays(tx: nat) | Extras(tx: nat) | LegacyArrays | LegacyExtras

  datatype File<V> = Partial | Whole(items: Items<V>)

  // SHA-256 of the schema and the ordered items, as an injective symbol.
  datatype Digest<V> = Sha256(schema: string, items: Items<V>)

  datatype Meta<V> = Meta(
    schema: string,
    revision: nat,
    digest: Digest<V>,
    arraysFile: Option<FileName>,
    extrasFile: Option<FileName>)

  datatype Commit<V> = Commit(meta: Meta<V>, tx: nat, arrays: Items<V>, extras: Items<V>)

  datatype Pc =
    | CreateArrays | FillArrays | CreateExtras | FillExtras
    | ReplaceMeta | SetCommitted | CleanArrays | CleanExtras

  datatype Writer<V> =
    | Resting
    | Writing(pc: Pc, tx: nat, schema: string, arrays: Items<V>, extras: Items<V>,
              previous: Option<Meta<V>>, payloads: set<FileName>)

  datatype ReadResult<V> =
    | NotFound
    | Found(schema: string, revision: nat, items: Items<V>)
    | DigestMismatch

  datatype Reader<V> =
    | Away
    | LoadArrays(meta: Meta<V>, seen: nat)
    | LoadExtras(meta: Meta<V>, seen: nat, items: Items<V>)
    | Compare(meta: Meta<V>, seen: nat, items: Items<V>)
    | Done(seen: nat, result: ReadResult<V>)

  datatype Store<V> = Store(
    files: map<FileName, File<V>>,
    meta: Option<Meta<V>>,
    writer: Writer<V>,
    readers: map<nat, Reader<V>>,
    nextTx: nat,
    commits: seq<Commit<V>>)

  datatype Step<V> =
    | Write(schema: string, arrays: Items<V>, extras: Items<V>, writeOnce: bool, expected: Option<int>)
    | Advance
    | Abort   // an exception: the cleanup clause of the writer runs
    | Crash   // the process stops: nothing more runs
    | Open(reader: nat)
    | Load(reader: nat)
    | Leave(reader: nat)

  // ---- The writer ------------------------------------------------------------------------

  function RevisionOf<V>(meta: Option<Meta<V>>): int {
    if meta.Some? then meta.value.revision else 0
  }

  function Start<V>(s: Store<V>, step: Step<V>): Store<V>
    requires step.Write?
  {
    if !s.writer.Resting? then s
    else if step.writeOnce && s.meta.Some? then s
    else if step.expected.Some? && RevisionOf(s.meta) != step.expected.value then s
    else
      s.(writer := Writing(CreateArrays, s.nextTx, step.schema, step.arrays, step.extras, s.meta, {}),
         nextTx := s.nextTx + 1)
  }

  function NewMeta<V>(w: Writer<V>): Meta<V>
    requires w.Writing?
  {
    Meta(w.schema, RevisionOf(w.previous) + 1, Sha256(w.schema, w.arrays + w.extras),
         if w.arrays != [] then Some(Arrays(w.tx)) else None,
         if w.extras != [] then Some(Extras(w.tx)) else None)
  }

  function FileOr(name: Option<FileName>, fallback: FileName): FileName {
    if name.Some? then name.value else fallback
  }

  function Unlink<V>(files: map<FileName, File<V>>, names: set<FileName>): map<FileName, File<V>> {
    map name | name in files && name !in names :: files[name]
  }

  /** Drop the replaced payload file unless old and new metadata name the same file. */
  function CleanUp<V>(files: map<FileName, File<V>>, replaced: FileName, installed: FileName): map<FileName, File<V>> {
    if replaced == installed then files else Unlink(files, {replaced})
  }

  function AdvanceWriter<V>(s: Store<V>): Store<V>
    requires s.writer.Writing?
  {
    var w := s.writer;
    match w.pc
    case CreateArrays =>
      if w.arrays == [] then s.(writer := w.(pc := CreateExtras))
      else s.(files := s.files[Arrays(w.tx) := Partial], writer := w.(pc := FillArrays))
    case FillArrays =>
      s.(files := s.files[Arrays(w.tx) := Whole(w.arrays)],
         writer := w.(pc := CreateExtras, payloads := w.payloads + {Arrays(w.tx)}))
    case CreateExtras =>
      if w.extras == [] then s.(writer := w.(pc := ReplaceMeta))
      else s.(files := s.files[Extras(w.tx) := Partial], writer := w.(pc := FillExtras))
    case FillExtras =>
      s.(files := s.files[Extras(w.tx) := Whole(w.extras)],
         writer := w.(pc := ReplaceMeta, payloads := w.payloads + {Extras(w.tx)}))
    case ReplaceMeta =>
      s.(meta := Some(NewMeta(w)),
         commits := s.commits + [Commit(NewMeta(w), w.tx, w.arrays, w.extras)],
         writer := w.(pc := SetCommitted))
    case SetCommitted =>
      s.(writer := w.(pc := CleanArrays))
    case CleanArrays =>
      s.(files := if w.previous.None? then s.files
                  else CleanUp(s.files, FileOr(w.previous.value.arraysFile, LegacyArrays),
                               FileOr(NewMeta(w).arraysFile, LegacyArrays)),
         writer := w.(pc := CleanExtras))
    case CleanExtras =>
      s.(files := if w.previous.None? then s.files
                  else CleanUp(s.files, FileOr(w.previous.value.extrasFile, LegacyExtras),
                               FileOr(NewMeta(w).extrasFile, LegacyExtras)),
         writer := Resting)
  }

  predicate IsCommitted(pc: Pc) {
    pc.CleanArrays? || pc.CleanExtras?
  }

  function AbortWriter<V>(s: Store<V>): Store<V>
    requires s.writer.Writing?
  {
    s.(files := if IsCommitted(s.writer.pc) then s.files else Unlink(s.files, s.writer.payloads),
       writer := Resting)
  }

  // ---- The readers -----------------------------------------------------------------------

  function ReaderOf<V>(s: Store<V>, reader: nat): Reader<V> {
    if reader in s.readers then s.readers[reader] else Away
  }

  /** A missing or unreadable payload file contributes nothing. */
  function Contents<V>(s: Store<V>, name: FileName): Items<V> {
    if name in s.files && s.files[name].Whole? then s.files[name].items else []
  }

  function OpenReader<V>(s: Store<V>): Reader<V> {
    if s.meta.None? then Done(|s.commits|, NotFound) else LoadArrays(s.meta.value, |s.commits|)
  }

  function AdvanceReader<V(==)>(s: Store<V>, reader: Reader<V>): Reader<V> {
    match reader
    case LoadArrays(meta, seen) =>
      LoadExtras(meta, seen, Contents(s, FileOr(meta.arraysFile, LegacyArrays)))
    case LoadExtras(meta, seen, items) =>
      Compare(meta, seen, items + Contents(s, FileOr(meta.extrasFile, LegacyExtras)))
    case Compare(meta, seen, items) =>
      Done(seen, if Sha256(meta.schema, items) == meta.digest
                 then Found(meta.schema, meta.revision, items) else DigestMismatch)
    case _ => reader
  }

  // ---- Steps and runs --------------------------------------------------------------------

  function Do<V(==)>(s: Store<V>, step: Step<V>): Store<V> {
    match step
    case Write(_, _, _, _, _) => Start(s, step)
    case Advance => if s.writer.Writing? then AdvanceWriter(s) else s
    case Abort => if s.writer.Writing? then AbortWriter(s) else s
    case Crash => s.(writer := Resting)
    case Open(r) => if ReaderOf(s, r).Away? then s.(readers := s.readers[r := OpenReader(s)]) else s
    case Load(r) => s.(readers := s.readers[r := AdvanceReader(s, ReaderOf(s, r))])
    case Leave(r) => s.(readers := s.readers[r := Away])
  }

  function Run<V(==)>(s: Store<V>, steps: seq<Step<V>>): Store<V>
    decreases |steps|
  {
    if steps == [] then s else Run(Do(s, steps[0]), steps[1..])
  }

  predicate Initial<V(==)>(s: Store<V>) {
    s == Store(map[], None, Resting, map[], 0, [])
  }

  /** An exception that lands between the metadata replacement and the `committed` flag. */
  predicate AbortsInWindow<V(==)>(s: Store<V>, step: Step<V>) {
    step.Abort? && s.writer.Writing? && s.writer.pc.SetCommitted? && s.writer.payloads != {}
  }

  ghost predicate NeverAbortsInWindow<V>(s: Store<V>, steps: seq<Step<V>>)
    decreases |steps|
  {
    steps == [] || (!AbortsInWindow(s, steps[0]) && NeverAbortsInWindow(Do(s, steps[0]), steps[1..]))
  }

  // ---- Invariant -------------------------------------------------------------------------

  ghost predicate CommitHas<V>(c: Commit<V>, revision: nat) {
    && c.meta.revision == revision
    && c.meta.digest == Sha256(c.meta.schema, c.arrays + c.extras)
    && c.meta.arraysFile == (if c.arrays != [] then Some(Arrays(c.tx)) else None)
    && c.meta.extrasFile == (if c.extras != [] then Some(Extras(c.tx)) else None)
  }

  /** A payload file of a commit is whole and has the commit's content as long as it exists. */
  ghost predicate FilesAgree<V>(files: map<FileName, File<V>>, c: Commit<V>) {
    && (c.meta.arraysFile.Some? && c.meta.arraysFile.value in files ==>
          files[c.meta.arraysFile.value] == Whole(c.arrays))
    && (c.meta.extrasFile.Some? && c.meta.extrasFile.value in files ==>
          files[c.meta.extrasFile.value] == Whole(c.extras))
  }

  ghost predicate FilesPresent<V>(files: map<FileName, File<V>>, c: Commit<V>) {
    && (c.meta.arraysFile.Some? ==> c.meta.arraysFile.value in files)
    && (c.meta.extrasFile.Some? ==> c.meta.extrasFile.value in files)
  }

  /** Revisions count commits; every payload file belongs to a transaction already handed out. */
  ghost predicate CommitsAreSound<V>(s: Store<V>) {
    && (forall i | 0 <= i < |s.commits| ::
          CommitHas(s.commits[i], i + 1) && s.commits[i].tx < s.nextTx && FilesAgree(s.files, s.commits[i]))
    && s.meta == (if |s.commits| == 0 then None else Some(s.commits[|s.commits| - 1].meta))
    && (forall name <- s.files ::
          match name
          case Arrays(tx) => tx < s.nextTx
          case Extras(tx) => tx < s.nextTx
          case _ => false)
  }

  ghost predicate LatestIsDurable<V>(s: Store<V>) {
    |s.commits| > 0 ==> FilesPresent(s.files, s.commits[|s.commits| - 1])
  }

  function Progress(pc: Pc): nat {
    match pc
    case CreateArrays => 0
    case FillArrays => 1
    case CreateExtras => 2
    case FillExtras => 3
    case ReplaceMeta => 4
    case SetCommitted => 5
    case CleanArrays => 6
    case CleanExtras => 7
  }

  ghost predicate WriterIsSound<V>(s: Store<V>) {
    s.writer.Writing? ==>
      var w := s.writer; var n := |s.commits|;
      && w.tx < s.nextTx
      && w.payloads <= {Arrays(w.tx), Extras(w.tx)}
      && (w.pc.FillArrays? ==> w.arrays != []) && (w.pc.FillExtras? ==> w.extras != [])
      && (Progress(w.pc) >= 2 && w.arrays != [] ==>
            Arrays(w.tx) in w.payloads && Arrays(w.tx) in s.files && s.files[Arrays(w.tx)] == Whole(w.arrays))
      && (Progress(w.pc) >= 4 && w.extras != [] ==>
            Extras(w.tx) in w.payloads && Extras(w.tx) in s.files && s.files[Extras(w.tx)] == Whole(w.extras))
      && (w.arrays == [] ==> Arrays(w.tx) !in w.payloads)
      && (w.extras == [] ==> Extras(w.tx) !in w.payloads)
      && if Progress(w.pc) <= 4
         then
           && w.previous == s.meta
           && (forall i | 0 <= i < n :: s.commits[i].tx != w.tx)
         else
           && n > 0
           && s.commits[n - 1] == Commit(NewMeta(w), w.tx, w.arrays, w.extras)
           && w.previous == (if n == 1 then None else Some(s.commits[n - 2].meta))
           && (forall i | 0 <= i < n - 1 :: s.commits[i].tx != w.tx)
  }

  /**
   What a reader has collected so far, and what its answer may be.  A payload file of the revision
   it opened may be gone when a later commit replaced it, or when committed payload was `lost`.
   */
  ghost predicate ReaderIsSound<V>(commits: seq<Commit<V>>, reader: Reader<V>, lost: bool) {
    match reader
    case Away => true
    case LoadArrays(meta, seen) => 0 < seen <= |commits| && meta == commits[seen - 1].meta
    case LoadExtras(meta, seen, items) =>
      && 0 < seen <= |commits| && meta == commits[seen - 1].meta
      && (items == commits[seen - 1].arrays || (items == [] && (lost || seen < |commits|)))
    case Compare(meta, seen, items) =>
      && 0 < seen <= |commits| && meta == commits[seen - 1].meta
      && (items == commits[seen - 1].arrays + commits[seen - 1].extras || lost || seen < |commits|)
    case Done(seen, NotFound) => seen == 0
    case Done(seen, DigestMismatch) => 0 < seen <= |commits| && (lost || seen < |commits|)
    case Done(seen, Found(schema, revision, items)) =>
      && 0 < seen <= |commits| && revision == seen
      && schema == commits[seen - 1].meta.schema
      && items == commits[seen - 1].arrays + commits[seen - 1].extras
  }

  /** Soundness of the store, where `lost` allows the payload of the latest commit to be missing. */
  ghost predicate Invariant<V>(s: Store<V>, lost: bool) {
    && CommitsAreSound(s)
    && (lost || LatestIsDurable(s))
    && WriterIsSound(s)
    && (forall r <- s.readers :: ReaderIsSound(s.commits, s.readers[r], lost))
  }

  lemma AdvanceKeepsInvariant<V>(s: Store<V>, lost: bool)
    requires Invariant(s, lost) && s.writer.Writing?
    ensures Invariant(AdvanceWriter(s), lost)
    ensures s.commits <= AdvanceWriter(s).commits
  {
    var pc := s.writer.pc;
    if pc.CreateArrays? {
      CreateArraysKeepsInvariant(s, lost);
    } else if pc.FillArrays? {
      FillArraysKeepsInvariant(s, lost);
    } else if pc.CreateExtras? {
      CreateExtrasKeepsInvariant(s, lost);
    } else if pc.FillExtras? {
      FillExtrasKeepsInvariant(s, lost);
    } else if pc.ReplaceMeta? {
      ReplaceKeepsInvariant(s, lost);
    } else if IsCommitted(pc) {
      if !lost {
        CleaningKeepsLatest(s);
      }
      CleaningKeepsTheRest(s);
    }
  }

  lemma CreateArraysKeepsInvariant<V>(s: Store<V>, lost: bool)
    requires Invariant(s, lost) && s.writer.Writing? && s.writer.pc.CreateArrays?
    ensures Invariant(AdvanceWriter(s), lost) && AdvanceWriter(s).commits == s.commits
  {}

  lemma FillArraysKeepsInvariant<V>(s: Store<V>, lost: bool)
    requires Invariant(s, lost) && s.writer.Writing? && s.writer.pc.FillArrays?
    ensures Invariant(AdvanceWriter(s), lost) && AdvanceWriter(s).commits == s.commits
  {}

  lemma CreateExtrasKeepsInvariant<V>(s: Store<V>, lost: bool)
    requires Invariant(s, lost) && s.writer.Writing? && s.writer.pc.CreateExtras?
    ensures Invariant(AdvanceWriter(s), lost) && AdvanceWriter(s).commits == s.commits
  {}

  lemma FillExtrasKeepsInvariant<V>(s: Store<V>, lost: bool)
    requires Invariant(s, lost) && s.writer.Writing? && s.writer.pc.FillExtras?
    ensures Invariant(AdvanceWriter(s), lost) && AdvanceWriter(s).commits == s.commits
  {}

  lemma ReplaceKeepsInvariant<V>(s: Store<V>, lost: bool)
    requires Invariant(s, lost) && s.writer.Writing? && s.writer.pc.ReplaceMeta?
    ensures Invariant(AdvanceWriter(s), lost) && s.commits <= AdvanceWriter(s).commits
  {
    var t := AdvanceWriter(s);
    forall r <- t.readers ensures ReaderIsSound(t.commits, t.readers[r], lost) {
      assert ReaderIsSound(s.commits, s.readers[r], lost);
    }
  }

  lemma CleaningKeepsTheRest<V>(s: Store<V>)
    requires CommitsAreSound(s) && WriterIsSound(s) && s.writer.Writing? && IsCommitted(s.writer.pc)
    ensures var t := AdvanceWriter(s);
            && CommitsAreSound(t) && WriterIsSound(t)
            && t.commits == s.commits && t.readers == s.readers
  {
    var n := |s.commits|;
    if n > 1 {
      assert CommitHas(s.commits[n - 2], n - 1) && s.commits[n - 2].tx != s.writer.tx;
    }
  }

  /** The cleanup never touches a file of the revision just installed. */
  lemma CleaningKeepsLatest<V>(s: Store<V>)
    requires Invariant(s, false) && s.writer.Writing? && IsCommitted(s.writer.pc)
    ensures LatestIsDurable(AdvanceWriter(s))
  {
    var n := |s.commits|;
    if n > 1 {
      assert CommitHas(s.commits[n - 2], n - 1) && s.commits[n - 2].tx != s.writer.tx;
    }
  }

  lemma AbortKeepsInvariant<V>(s: Store<V>, lost: bool)
    requires Invariant(s, lost) && s.writer.Writing? && (lost || !AbortsInWindow(s, Abort))
    ensures Invariant(AbortWriter(s), lost)
  {
    var n := |s.commits|;
    if Progress(s.writer.pc) <= 4 && n > 0 {
      assert CommitHas(s.commits[n - 1], n) && s.commits[n - 1].tx != s.writer.tx;
    }
  }

  lemma StartKeepsInvariant<V>(s: Store<V>, step: Step<V>, lost: bool)
    requires Invariant(s, lost) && step.Write?
    ensures Invariant(Start(s, step), lost)
  {}

  lemma LoadKeepsReader<V>(s: Store<V>, reader: Reader<V>, lost: bool)
    requires Invariant(s, lost) && ReaderIsSound(s.commits, reader, lost)
    ensures ReaderIsSound(s.commits, AdvanceReader(s, reader), lost)
  {
    if reader.LoadArrays? || reader.LoadExtras? || reader.Compare? {
      var c := s.commits[reader.seen - 1];
      assert CommitHas(c, reader.seen) && FilesAgree(s.files, c);
    }
  }

  lemma SetReaderKeepsInvariant<V>(s: Store<V>, r: nat, reader: Reader<V>, lost: bool)
    requires Invariant(s, lost) && ReaderIsSound(s.commits, reader, lost)
    ensures Invariant(s.(readers := s.readers[r := reader]), lost)
  {}

  /** Every step keeps the store sound; only an exception in the window can lose committed payload. */
  lemma StepKeepsInvariant<V>(s: Store<V>, step: Step<V>, lost: bool)
    requires Invariant(s, lost) && (lost || !AbortsInWindow(s, step))
    ensures Invariant(Do(s, step), lost)
    ensures s.commits <= Do(s, step).commits
  {
    match step
    case Write(_, _, _, _, _) => StartKeepsInvariant(s, step, lost);
    case Advance =>
      if s.writer.Writing? {
        AdvanceKeepsInvariant(s, lost);
      }
    case Abort =>
      if s.writer.Writing? {
        AbortKeepsInvariant(s, lost);
      }
    case Crash =>
    case Open(r) => SetReaderKeepsInvariant(s, r, OpenReader(s), lost);
    case Load(r) =>
      LoadKeepsReader(s, ReaderOf(s, r), lost);
      SetReaderKeepsInvariant(s, r, AdvanceReader(s, ReaderOf(s, r)), lost);
    case Leave(r) => SetReaderKeepsInvariant(s, r, Away, lost);
  }

  // ---- Main results ----------------------------------------------------------------------

  /**
   Over every interleaving of one writer, stopped anywhere, with any readers: existing files of the
   installed metadata are whole, revisions count commits, each answer is sound, and no file of the
   latest commit is missing unless an exception landed in the window.
   */
  lemma {:induction false} EveryRunKeepsInvariant<V>(s: Store<V>, steps: seq<Step<V>>, lost: bool)
    requires Invariant(s, lost) && (lost || NeverAbortsInWindow(s, steps))
    ensures Invariant(Run(s, steps), lost)
    ensures s.commits <= Run(s, steps).commits
    decreases |steps|
  {
    if steps != [] {
      StepKeepsInvariant(s, steps[0], lost);
      EveryRunKeepsInvariant(Do(s, steps[0]), steps[1..], lost);
    }
  }

  lemma InitialIsSound<V>(s: Store<V>, lost: bool)
    requires Initial(s)
    ensures Invariant(s, lost)
  {}

  /**
   Whatever the interleaving, and wherever the writer stops, a concurrent read answers with one
   whole committed snapshot, with nothing when none was committed before it opened the metadata, or
   with a digest error; it never answers with a mixture.  A digest error means that a later commit
   replaced the one it was reading, unless an exception in the window deleted committed payload.
   */
  lemma EveryReadIsWhole<V>(s: Store<V>, steps: seq<Step<V>>, reader: nat)
    requires Initial(s)
    requires ReaderOf(Run(s, steps), reader).Done?
    ensures var t := Run(s, steps); var answer := ReaderOf(t, reader);
            match answer.result
            case NotFound => answer.seen == 0
            case DigestMismatch =>
              && 0 < answer.seen <= |t.commits|
              && (NeverAbortsInWindow(s, steps) ==> answer.seen < |t.commits|)
            case Found(schema, revision, items) =>
              && 0 < revision == answer.seen <= |t.commits|
              && schema == t.commits[revision - 1].meta.schema
              && items == t.commits[revision - 1].arrays + t.commits[revision - 1].extras
  {
    var lost := !NeverAbortsInWindow(s, steps);
    InitialIsSound(s, lost);
    EveryRunKeepsInvariant(s, steps, lost);
    assert ReaderIsSound(Run(s, steps).commits, Run(s, steps).readers[reader], lost);
  }

  /** After a stop anywhere but in the window, a read that nobody disturbs returns the latest commit. */
  lemma UndisturbedReadReturnsLatest<V>(s: Store<V>)
    requires Invariant(s, false)
    ensures AdvanceReader(s, AdvanceReader(s, AdvanceReader(s, OpenReader(s)))) ==
            if |s.commits| == 0 then Done(0, NotFound)
            else
              var c := s.commits[|s.commits| - 1];
              Done(|s.commits|, Found(c.meta.schema, |s.commits|, c.arrays + c.extras))
  {
    if |s.commits| > 0 {
      var c := s.commits[|s.commits| - 1];
      assert CommitHas(c, |s.commits|) && FilesAgree(s.files, c) && FilesPresent(s.files, c);
    }
  }

  /**
   An exception is harmless exactly when it does not land in the window between replacing the
   metadata and setting the flag: in that window the cleanup deletes the payload just committed.
   */
  lemma AbortIsSafeIff<V>(s: Store<V>)
    requires Invariant(s, false) && s.writer.Writing?
    ensures Invariant(Do(s, Abort), false) <==> !AbortsInWindow(s, Abort)
  {
    if AbortsInWindow(s, Abort) {
      var t := Do(s, Abort);
      var n := |s.commits|;
      assert NewMeta(s.writer) == s.commits[n - 1].meta;
      assert s.writer.payloads <= {Arrays(s.writer.tx), Extras(s.writer.tx)};
      assert !FilesPresent(t.files, t.commits[n - 1]);
    } else {
      AbortKeepsInvariant(s, false);
    }
  }

  /** After an exception in the window, even a read that nobody disturbs fails with a digest error. */
  lemma AbortInWindowIsNoticed<V>(s: Store<V>)
    requires Invariant(s, false) && AbortsInWindow(s, Abort)
    ensures var t := Do(s, Abort);
            AdvanceReader(t, AdvanceReader(t, AdvanceReader(t, OpenReader(t)))) == Done(|s.commits|, DigestMismatch)
  {
    var w := s.writer;
    var t := Do(s, Abort);
    assert s.meta == Some(NewMeta(w));
    assert w.arrays + w.extras != [];
    assert w.arrays != [] ==> Arrays(w.tx) !in t.files;
    assert w.extras != [] ==> Extras(w.tx) !in t.files;
    assert LegacyArrays !in t.files && LegacyExtras !in t.files;
    assert AdvanceReader(t, AdvanceReader(t, OpenReader(t))) == Compare(NewMeta(w), |s.commits|, []);
  }

  /** The window is reachable: the first write of one array, and an exception after its metadata. */
  lemma WindowIsReachable(s: Store<int>)
    requires Initial(s)
    ensures var written := Run(s, [Write("v1", [("x", 1)], [], false, None), Advance, Advance, Advance, Advance]);
            |written.commits| == 1 && Invariant(written, false) && AbortsInWindow(written, Abort)
  {
    var steps: seq<Step<int>> := [Write("v1", [("x", 1)], [], false, None), Advance, Advance, Advance, Advance];
    var s2 := AdvanceWriter(Do(s, steps[0]));
    var s4 := AdvanceWriter(AdvanceWriter(s2));
    RunUnfolds(s, steps);
    assert Run(s, steps) == AdvanceWriter(s4);
    assert s4.writer.pc.ReplaceMeta? && s4.writer.payloads == {Arrays(0)};
    InitialIsSound(s, true);
    EveryRunKeepsInvariant(s, steps, true);
  }

  lemma RunUnfolds<V>(s: Store<V>, steps: seq<Step<V>>)
    requires |steps| == 5
    ensures Run(s, steps) == Do(Do(Do(Do(Do(s, steps[0]), steps[1]), steps[2]), steps[3]), steps[4])
  {
    var a := Do(s, steps[0]);
    var b := Do(a, steps[1]);
    var c := Do(b, steps[2]);
    var d := Do(c, steps[3]);
    assert steps[1..][0] == steps[1] && steps[1..][1..] == steps[2..];
    assert steps[2..][0] == steps[2] && steps[2..][1..] == steps[3..];
    assert steps[3..][0] == steps[3] && steps[3..][1..] == steps[4..];
    assert steps[4..][0] == steps[4] && steps[4..][1..] == [];
    assert Run(s, steps) == Run(a, steps[1..]) == Run(b, steps[2..]) == Run(c, steps[3..]) == Run(d, steps[4..]);
    assert Run(d, steps[4..]) == Run(Do(d, steps[4]), []);
  }

  // ---- Progress --------------------------------------------------------------------------

  /** The steps of a reader: others leave it alone, and opening, loading and leaving move it on. */
  lemma ReaderMoves<V>(s: Store<V>, step: Step<V>, r: nat)
    ensures step != Open(r) && step != Load(r) && step != Leave(r) ==> ReaderOf(Do(s, step), r) == ReaderOf(s, r)
    ensures step == Open(r) ==>
              ReaderOf(Do(s, step), r) == if ReaderOf(s, r).Away? then OpenReader(s) else ReaderOf(s, r)
    ensures step == Load(r) ==> ReaderOf(Do(s, step), r) == AdvanceReader(s, ReaderOf(s, r))
    ensures step == Leave(r) ==> ReaderOf(Do(s, step), r) == Away
    ensures step.Open? || step.Load? || step.Leave? ==> Do(s, step) == s.(readers := Do(s, step).readers)
  {}

  /** A read of four steps that nobody disturbs answers with the latest commit. */
  lemma LoneReadReturnsLatest<V>(s: Store<V>, r: nat)
    requires Invariant(s, false) && ReaderOf(s, r).Away?
    ensures ReaderOf(Do(Do(Do(Do(s, Open(r)), Load(r)), Load(r)), Load(r)), r) ==
            if |s.commits| == 0 then Done(0, NotFound)
            else
              var c := s.commits[|s.commits| - 1];
              Done(|s.commits|, Found(c.meta.schema, |s.commits|, c.arrays + c.extras))
  {
    var a := Do(s, Open(r));
    var b := Do(a, Load(r));
    var c := Do(b, Load(r));
    ReaderMoves(s, Open(r), r);
    ReaderMoves(a, Load(r), r);
    ReaderMoves(b, Load(r), r);
    ReaderMoves(c, Load(r), r);
    SameFilesSameRead(s, a, ReaderOf(a, r));
    SameFilesSameRead(s, b, ReaderOf(b, r));
    SameFilesSameRead(s, c, ReaderOf(c, r));
    UndisturbedReadReturnsLatest(s);
  }

  /** Reading depends on the files alone. */
  lemma SameFilesSameRead<V>(s: Store<V>, t: Store<V>, reader: Reader<V>)
    requires s.files == t.files
    ensures AdvanceReader(t, reader) == AdvanceReader(s, reader)
  {}

  /** A write may start: nobody is writing, write-once finds nothing, and the expected revision is the latest. */
  ghost predicate MayStart<V>(s: Store<V>, step: Step<V>)
    requires step.Write?
  {
    && s.writer.Resting?
    && (step.writeOnce ==> s.commits == [])
    && (step.expected.Some? ==> step.expected.value == |s.commits|)
  }

  /** A write that may not start changes nothing; any other begins a transaction of its own. */
  lemma StartsIff<V>(s: Store<V>, step: Step<V>)
    requires CommitsAreSound(s) && step.Write?
    ensures !MayStart(s, step) ==> Do(s, step) == s
    ensures MayStart(s, step) ==>
              Do(s, step) ==
                s.(writer := Writing(CreateArrays, s.nextTx, step.schema, step.arrays, step.extras, s.meta, {}),
                   nextTx := s.nextTx + 1)
  {
    if s.commits != [] {
      assert CommitHas(s.commits[|s.commits| - 1], |s.commits|);
    }
  }

  function AdvanceTimes<V>(s: Store<V>, n: nat): Store<V>
    decreases n
  {
    if n == 0 || !s.writer.Writing? then s else AdvanceTimes(AdvanceWriter(s), n - 1)
  }

  function CommitOf<V>(w: Writer<V>): Commit<V>
    requires w.Writing?
  {
    Commit(NewMeta(w), w.tx, w.arrays, w.extras)
  }

  /** One step forward: the commit is made when the metadata is replaced, and at no other step. */
  lemma AdvanceMovesOn<V>(s: Store<V>)
    requires s.writer.Writing?
    ensures var w := s.writer; var t := AdvanceWriter(s);
            && (t.writer.Resting? ==> w.pc.CleanExtras?)
            && (t.writer.Writing? ==>
                  && Progress(t.writer.pc) > Progress(w.pc)
                  && (Progress(t.writer.pc) <= 4 || Progress(w.pc) >= 4)
                  && NewMeta(t.writer) == NewMeta(w) && t.writer.tx == w.tx
                  && t.writer.arrays == w.arrays && t.writer.extras == w.extras)
            && t.commits == s.commits + (if w.pc.ReplaceMeta? then [CommitOf(w)] else [])
            && t.meta == (if w.pc.ReplaceMeta? then Some(NewMeta(w)) else s.meta)
  {}

  /** A writer that is left alone finishes, with exactly one commit of what it was given. */
  lemma {:induction false} LoneWriterCommits<V>(s: Store<V>, n: nat)
    requires s.writer.Writing? && n + Progress(s.writer.pc) >= 8
    ensures var w := s.writer; var t := AdvanceTimes(s, n);
            && t.writer.Resting?
            && t.commits == s.commits + (if Progress(w.pc) <= 4 then [CommitOf(w)] else [])
            && t.meta == (if Progress(w.pc) <= 4 then Some(NewMeta(w)) else s.meta)
    decreases n
  {
    var t := AdvanceWriter(s);
    AdvanceMovesOn(s);
    if t.writer.Writing? {
      LoneWriterCommits(t, n - 1);
    }
  }

  /** A write that may start and is left alone adds one commit with its content and the next revision. */
  lemma LoneWriteCommits<V>(s: Store<V>, step: Step<V>)
    requires Invariant(s, false) && step.Write? && MayStart(s, step)
    ensures var t := AdvanceTimes(Do(s, step), 8);
            && t.writer.Resting? && |t.commits| == |s.commits| + 1 && s.commits <= t.commits
            && var c := t.commits[|s.commits|];
               && c.arrays == step.arrays && c.extras == step.extras && c.meta.schema == step.schema
               && c.meta.revision == |s.commits| + 1 && t.meta == Some(c.meta)
  {
    StartsIff(s, step);
    if s.commits != [] {
      assert CommitHas(s.commits[|s.commits| - 1], |s.commits|);
    }
    LoneWriterCommits(Do(s, step), 8);
  }

  /** Cleaning up removes the payload files of the revision that was replaced. */
  lemma CleaningRemovesReplaced<V>(s: Store<V>)
    requires Invariant(s, false) && s.writer.Writing? && s.writer.pc.CleanArrays? && |s.commits| > 1
    ensures var replaced := s.commits[|s.commits| - 2].meta; var t := AdvanceTimes(s, 2);
            && t.writer.Resting?
            && (replaced.arraysFile.Some? ==> replaced.arraysFile.value !in t.files)
            && (replaced.extrasFile.Some? ==> replaced.extrasFile.value !in t.files)
  {
    var n := |s.commits|;
    assert CommitHas(s.commits[n - 2], n - 1) && s.commits[n - 2].tx != s.writer.tx;
    var u := AdvanceWriter(s);
    assert AdvanceTimes(s, 2) == AdvanceTimes(u, 1) == AdvanceWriter(u);
  }

  /** An exception before the metadata is replaced leaves no finished payload file and no commit behind. */
  lemma AbortLeavesNothing<V>(s: Store<V>)
    requires Invariant(s, false) && s.writer.Writing? && Progress(s.writer.pc) <= 4
    ensures var t := Do(s, Abort); var tx := s.writer.tx;
            && t.writer.Resting? && t.commits == s.commits && t.meta == s.meta
            && (Arrays(tx) in t.files ==>
                  t.files[Arrays(tx)] == s.files[Arrays(tx)] && Arrays(tx) !in s.writer.payloads)
            && (Extras(tx) in t.files ==>
                  t.files[Extras(tx)] == s.files[Extras(tx)] && Extras(tx) !in s.writer.payloads)
  {}
}
