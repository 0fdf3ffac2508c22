/**
 * The directory-enumeration scheduler of tests/testlistview.c.
 *
 * Two globals drive it: `active`, the number of enumerations with a fetch in
 * flight, and `pending`, a singly linked list of stores whose enumeration was
 * put off. New stores are prepended and the head is taken first, so
 * `pending` is a stack. Opening a directory has three outcomes (admitted,
 * deferred, dropped); a batch of entries is appended to its store in one
 * splice; an empty batch ends that directory, re-submits the most recently
 * deferred store and only then decrements `active`.
 *
 * The file-system calls become inputs: the outcome of opening a directory
 * (OpenResult) and the infos a fetch returned (a possibly empty batch). An
 * issued asynchronous fetch is returned as a Fetch value; its completion is a
 * later call of Scheduler.GotFiles.
 *
 * Sched, Start and Finish state the scheduler's behaviour as functions of its
 * state; the Scheduler class holds the globals and its methods, written in
 * the code's own imperative steps, are proved to follow those functions.
 */
module Enumeration {
  import opened Wrappers
  import opened Files

  /** What g_file_enumerate_children gave: an enumerator, or one of two kinds of error. */
  datatype OpenResult = Opened | TooManyOpenFiles | OtherError

  /** A g_file_enumerator_next_files_async request: read up to `count` infos for `store`. */
  datatype Fetch = Fetch(store: Store, count: nat)

  /** The two globals: `active` enumerations and the `pending` stack (head first). */
  datatype Sched = Sched(active: nat, pending: seq<Store>)

  /** The result of start_enumerate: new state, its boolean result, the fetch it issued. */
  datatype Step = Step(next: Sched, ok: bool, fetch: Option<Fetch>)

  /** The result of an end-of-directory completion: new state and the fetch it issued. */
  datatype Finished = Finished(next: Sched, fetch: Option<Fetch>)

  /** An open succeeds in starting a fetch only while `active` is at most this. */
  const Ceiling: nat := 20

  /** Infos requested per fetch: 5000 on a native file system, 100 otherwise. */
  function BatchSize(file: Location): (n: nat)
    ensures n == 5000 || n == 100
    ensures n == 5000 <==> file.native
  {
    if file.native then 5000 else 100
  }

  /** Directories still to do, as the status bar counts them. */
  function Remaining(s: Sched): nat
  {
    s.active + |s.pending|
  }

  /** Someone is left to pop the pending stack: a deferred store implies a running enumeration. */
  predicate Live(s: Sched)
  {
    s.pending != [] ==> s.active > 0
  }

  /**
   * start_enumerate(store) when opening the store's directory gave `open`.
   * Dropped: any error other than too-many-open-files, or that error with
   * nothing running; nothing changes and the result is false. Deferred: the
   * error while something runs, or a successful open with more than Ceiling
   * running; the store goes on top of `pending`. Admitted: otherwise; `active`
   * grows by one and one fetch of BatchSize infos is issued.
   */
  function Start(s: Sched, store: Store, open: OpenResult): (r: Step)
    ensures r.ok <==> open.Opened? || (open.TooManyOpenFiles? && s.active > 0)
    ensures !r.ok ==> r.next == s && r.fetch == None
    ensures r.fetch.Some? <==> open.Opened? && s.active <= Ceiling
    ensures r.fetch.Some? ==> r.next == Sched(s.active + 1, s.pending) && r.fetch.value == Fetch(store, BatchSize(store.file))
    ensures r.ok && r.fetch.None? ==> r.next == Sched(s.active, [store] + s.pending)
    ensures r.next.active > s.active ==> r.next.active <= Ceiling + 1
    ensures Remaining(r.next) == Remaining(s) + (if r.ok then 1 else 0)
    ensures Live(s) ==> Live(r.next)
  {
    match open
    case OtherError => Step(s, false, None)
    case TooManyOpenFiles =>
      if s.active > 0 then Step(Sched(s.active, [store] + s.pending), true, None)
      else Step(s, false, None)
    case Opened =>
      if s.active > Ceiling then Step(Sched(s.active, [store] + s.pending), true, None)
      else Step(Sched(s.active + 1, s.pending), true, Some(Fetch(store, BatchSize(store.file))))
  }

  /**
   * got_files with an empty batch (end of directory, or a read error): the
   * head of `pending`, if any, is removed and re-submitted while the finishing
   * enumeration is still counted, then `active` drops by one. `reopen` is what
   * opening the re-submitted store's directory gives.
   */
  function Finish(s: Sched, reopen: OpenResult): (r: Finished)
    requires s.active > 0
    ensures s.pending == [] ==> r == Finished(Sched(s.active - 1, []), None)
    ensures s.pending != [] ==> r.next.pending == s.pending[1..] || r.next.pending == s.pending
    ensures s.pending != [] ==> (r.fetch.Some? <==> reopen.Opened? && s.active <= Ceiling)
    ensures s.pending != [] ==>
      (r.next.pending == s.pending <==> reopen.TooManyOpenFiles? || (reopen.Opened? && s.active > Ceiling))
    ensures s.pending != [] && reopen.OtherError? ==> r == Finished(Sched(s.active - 1, s.pending[1..]), None)
    ensures r.fetch.Some? ==> s.pending != [] && s.active <= Ceiling && r.next.active == s.active
    ensures r.fetch.Some? ==> r.fetch.value == Fetch(s.pending[0], BatchSize(s.pending[0].file))
    ensures r.fetch.None? ==> r.next.active == s.active - 1
    ensures Remaining(r.next) < Remaining(s)
    ensures s.active <= Ceiling + 1 ==> r.next.active <= Ceiling
  {
    if s.pending == [] then Finished(Sched(s.active - 1, []), None)
    else
      var st := Start(Sched(s.active, s.pending[1..]), s.pending[0], reopen);
      assert [s.pending[0]] + s.pending[1..] == s.pending;
      Finished(Sched(st.next.active - 1, st.next.pending), st.fetch)
  }

  /**
   * A directory whose open ran out of file descriptors while another
   * enumeration was running is deferred, not dropped, and is re-submitted
   * when that enumeration reaches its end: if the re-open succeeds, its
   * first fetch is issued and it takes over the finishing one's slot.
   */
  lemma ExhaustedOpenIsRetried(store: Store, reopen: OpenResult)
    ensures var st := Start(Sched(1, []), store, TooManyOpenFiles);
      && st.ok && st.next == Sched(1, [store])
      && var f := Finish(st.next, reopen);
      && (reopen.Opened? ==> f == Finished(Sched(1, []), Some(Fetch(store, BatchSize(store.file)))))
      && (reopen.OtherError? ==> f == Finished(Sched(0, []), None))
  {
  }

  /**
   * Finding, as written: with one enumeration running and one store deferred,
   * an end-of-directory completion re-submits the store while the finishing
   * enumeration is still counted. If the re-open runs out of file descriptors
   * again, the store is deferred once more, then `active` drops to zero: a
   * store is left pending with nothing running, and no completion pops it
   * until another directory is opened. The same happens when the head is
   * dropped while more stores wait.
   */
  lemma FinishCanStrand(a: Store, b: Store)
    ensures Live(Sched(1, [a])) && !Live(Finish(Sched(1, [a]), TooManyOpenFiles).next)
    ensures Finish(Sched(1, [a]), TooManyOpenFiles).next == Sched(0, [a])
    ensures Live(Sched(1, [a, b])) && !Live(Finish(Sched(1, [a, b]), OtherError).next)
  {
    assert [a, b][1..] == [b];
  }

  /**
   * The stranded store of FinishCanStrand waits for another directory to be
   * opened and admitted. The next end-of-directory completion re-submits it,
   * unless another store was deferred on top of it meanwhile; it gets its
   * fetch if its re-open succeeds. Here b is admitted; then either b ends
   * and a is re-opened, or c is deferred first and b's end pops c instead.
   */
  lemma StrandedStoreWaitsForNextOpen(a: Store, b: Store, c: Store, reopen: OpenResult)
    ensures var s := Finish(Sched(1, [a]), TooManyOpenFiles).next;
      && s == Sched(0, [a])
      && var st := Start(s, b, Opened);
      && st.next == Sched(1, [a]) && st.fetch == Some(Fetch(b, BatchSize(b.file)))
      && (reopen.Opened? ==> Finish(st.next, reopen) == Finished(Sched(1, []), Some(Fetch(a, BatchSize(a.file)))))
      && (reopen.TooManyOpenFiles? ==> Finish(st.next, reopen) == Finished(Sched(0, [a]), None))
      && (reopen.OtherError? ==> Finish(st.next, reopen) == Finished(Sched(0, []), None))
      && var sc := Start(st.next, c, TooManyOpenFiles);
      && sc.next == Sched(1, [c, a])
      && (reopen.Opened? ==> Finish(sc.next, reopen) == Finished(Sched(1, [a]), Some(Fetch(c, BatchSize(c.file)))))
  {
    assert [c, a][1..] == [a];
  }

  /** p is what is left of q after removing some of its first elements. */
  predicate IsSuffix(p: seq<Store>, q: seq<Store>)
  {
    |p| <= |q| && q[|q| - |p|..] == p
  }

  /**
   * Re-submit deferred stores, head first, until one is admitted or deferred
   * or none is left. A store is only passed over when it was dropped with
   * nothing running, the case in which nobody else would ever pop the next
   * one. `open` says what opening each store's directory gives.
   */
  function Resubmit(s: Sched, open: Store -> OpenResult): (r: Finished)
    ensures Live(r.next)
    ensures Remaining(r.next) <= Remaining(s)
    ensures s.active <= Ceiling + 1 ==> r.next.active <= Ceiling + 1
    ensures r.fetch.Some? ==> r.next.active > 0 && r.fetch.value.store in s.pending
    ensures IsSuffix(r.next.pending, s.pending)
    ensures forall st :: st in s.pending && (open(st).Opened? || (open(st).TooManyOpenFiles? && s.active > 0)) ==>
      st in r.next.pending || r.fetch == Some(Fetch(st, BatchSize(st.file)))
    decreases |s.pending|
  {
    if s.pending == [] then Finished(s, None)
    else
      var head, rest := s.pending[0], s.pending[1..];
      assert s.pending == [head] + rest;
      var st := Start(Sched(s.active, rest), head, open(head));
      if st.next.active == 0 && st.next.pending != [] then
        var r := Resubmit(st.next, open);
        assert r.fetch.Some? ==> r.fetch.value.store in rest;
        assert IsSuffix(r.next.pending, rest);
        r
      else Finished(st.next, st.fetch)
  }

  /**
   * Finding, corrected: the finishing enumeration gives up its slot before a
   * deferred store is re-submitted, and re-submission goes on past dropped
   * stores while nothing runs. A state in which some store waits always has
   * an enumeration running whose completion will pop it, and the work left
   * still shrinks with every completion.
   */
  function FinishFixed(s: Sched, open: Store -> OpenResult): (r: Finished)
    requires s.active > 0
    ensures Live(r.next)
    ensures IsSuffix(r.next.pending, s.pending)
    ensures forall st :: st in s.pending && (open(st).Opened? || (open(st).TooManyOpenFiles? && s.active > 1)) ==>
      st in r.next.pending || r.fetch == Some(Fetch(st, BatchSize(st.file)))
    ensures Remaining(r.next) < Remaining(s)
    ensures s.active <= Ceiling + 1 ==> r.next.active <= Ceiling + 1
    ensures s.pending == [] ==> r == Finished(Sched(s.active - 1, []), None)
  {
    Resubmit(Sched(s.active - 1, s.pending), open)
  }

  /** The scheduler state the code keeps in the globals `active` and `pending`. */
  class Scheduler {
    var active: nat
    var pending: seq<Store>
    /** The stores whose enumeration has a fetch in flight: one per unit of `active`. */
    ghost var running: multiset<Store>

    /**
     * `active` counts the running enumerations, and each store holds at most
     * one ticket: it runs at most once, waits at most once, and never both.
     */
    ghost predicate Valid()
      reads this
    {
      && active == |running| && active <= Ceiling + 1
      && (forall st :: st in running ==> running[st] == 1)
      && (forall i, j :: 0 <= i < j < |pending| ==> pending[i] != pending[j])
      && (forall st :: st in pending ==> st !in running)
    }

    function State(): Sched
      reads this
    {
      Sched(active, pending)
    }

    /** The globals' initial values: `pending = NULL`, `active = 0`. */
    constructor ()
      ensures Valid() && State() == Sched(0, []) && running == multiset{}
    {
      active := 0;
      pending := [];
      running := multiset{};
    }

    /** start_enumerate (testlistview.c:13-60). */
    method StartEnumerate(store: Store, open: OpenResult) returns (ok: bool, fetch: Option<Fetch>)
      requires Valid() && store !in running && store !in pending
      modifies this
      ensures Valid()
      ensures Start(old(State()), store, open) == Step(State(), ok, fetch)
      ensures running == if fetch.Some? then old(running) + multiset{store} else old(running)
    {
      if open != Opened {
        if open == TooManyOpenFiles && active > 0 {
          pending := [store] + pending;
          return true, None;
        }
        return false, None;
      }
      if active > Ceiling {
        pending := [store] + pending;
        return true, None;
      }
      active := active + 1;
      running := running + multiset{store};
      fetch := Some(Fetch(store, BatchSize(store.file)));
      ok := true;
    }

    /**
     * got_files (testlistview.c:62-107): the completion of a fetch issued
     * for `store`, which returned `batch`. A non-empty batch is appended to
     * the store in one splice and the next fetch is issued; an empty batch
     * ends the directory as Finish says.
     */
    method GotFiles(store: Store, batch: seq<FileInfo>, reopen: OpenResult) returns (fetch: Option<Fetch>)
      requires Valid() && store in running
      modifies this, store
      ensures Valid()
      ensures batch != [] ==>
        && State() == old(State()) && running == old(running)
        && store.items == old(store.items) + Attach(store.file, batch)
        && store.changes == old(store.changes) + [ItemsChanged(|old(store.items)|, 0, |batch|)]
        && fetch == Some(Fetch(store, BatchSize(store.file)))
      ensures batch == [] ==>
        && Finish(old(State()), reopen) == Finished(State(), fetch)
        && running == (if fetch.Some? then old(running) + multiset{fetch.value.store} else old(running)) - multiset{store}
        && store.items == old(store.items) && store.changes == old(store.changes)
    {
      if batch == [] {
        fetch := EndOfDirectory(store, reopen);
        return;
      }
      var added := Attach(store.file, batch);
      store.Splice(|store.items|, 0, added);
      assert store.items == old(store.items) + added;
      fetch := Some(Fetch(store, BatchSize(store.file)));
    }

    /** The empty-batch path of got_files: re-submit the head of `pending`, then give up the slot. */
    method EndOfDirectory(store: Store, reopen: OpenResult) returns (fetch: Option<Fetch>)
      requires Valid() && store in running
      modifies this
      ensures Valid()
      ensures Finish(old(State()), reopen) == Finished(State(), fetch)
      ensures running == (if fetch.Some? then old(running) + multiset{fetch.value.store} else old(running)) - multiset{store}
    {
      fetch := None;
      if pending != [] {
        var next := pending[0];
        pending := pending[1..];
        var _, f := StartEnumerate(next, reopen);
        fetch := f;
      }
      active := active - 1;
      running := running - multiset{store};
    }

    /**
     * create_list_model_for_directory (testlistview.c:143-158): no store for
     * a file that is not a directory, nor when start_enumerate gives up on the
     * new store; otherwise the new, still empty store.
     */
    method CreateListModelForDirectory(file: Location, kind: FileKind, open: OpenResult)
      returns (model: Store?, fetch: Option<Fetch>)
      requires Valid()
      modifies this
      ensures Valid()
      ensures model != null <==> kind == Directory && (open.Opened? || (open.TooManyOpenFiles? && old(active) > 0))
      ensures model == null ==> State() == old(State()) && running == old(running) && fetch == None
      ensures model != null ==>
        && fresh(model) && model.file == file && model.items == [] && model.changes == []
        && Start(old(State()), model, open) == Step(State(), true, fetch)
        && running == if fetch.Some? then old(running) + multiset{model} else old(running)
    {
      if kind != Directory {
        return null, None;
      }
      var store := new Store(file);
      var ok;
      ok, fetch := StartEnumerate(store, open);
      if !ok {
        return null, fetch;
      }
      model := store;
    }
  }
}
