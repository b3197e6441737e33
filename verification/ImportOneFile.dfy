/** One import by itself: the code from end to end, as a sequence of the moves of `ImportFile`. */
module ImportOneFile {
  import opened Collections
  import opened ImportFile

  const COPY_BUFFER: nat := 64 * 1024

  /** How the file system answers; a copy stops with an error after `stopsAfter` bytes, if it gets that far. */
  datatype Answers = Answers(
    linkWorks: bool, hasRoom: bool, stopsAfter: Option<nat>, publishWorks: bool, unlinkWorks: bool)

  // ------------------------------------------------------------------ traces

  datatype Trace = Trace(states: seq<State>, moves: seq<Move>)

  ghost function At(names: map<Name, Inode>, data: map<Inode, Content>, phase: Phase): State {
    State(names, data, map[0 := phase])
  }

  /** A run of one worker, numbered 0, that has come to the given state. */
  ghost predicate Reaches(job: Job, first: State, r: Trace, now: State) {
    && |r.states| == |r.moves| + 1 && r.states[0] == first && r.states[|r.moves|] == now
    && forall i | 0 <= i < |r.moves| ::
         0 in r.states[i].phases && Acts(job, r.states[i], r.states[i + 1], 0, r.states[i].phases[0], r.moves[i])
  }

  ghost function Then(r: Trace, t: State, m: Move): Trace {
    Trace(r.states + [t], r.moves + [m])
  }

  lemma Moved(job: Job, first: State, r: Trace, s: State, t: State, m: Move)
    requires Reaches(job, first, r, s) && 0 in s.phases && Acts(job, s, t, 0, s.phases[0], m)
    ensures Reaches(job, first, Then(r, t, m), t)
  {
    hide Acts;
  }

  lemma Started(job: Job, first: State)
    ensures Reaches(job, first, Trace([first], []), first)
  {
  }

  /** Such a trace is a run of the protocol, so all that holds of runs holds of it. */
  lemma TraceIsRun(job: Job, names: map<Name, Inode>, data: map<Inode, Content>, r: Trace, now: State)
    requires Reaches(job, At(names, data, Start), r, now)
    requires Sound(names, data) && JobApart(job) && job.temp !in names
    ensures IsRun(Run(map[0 := job], r.states, seq(|r.moves|, _ => 0), r.moves))
  {
    hide Acts, IsTemp;
    var run := Run(map[0 := job], r.states, seq(|r.moves|, _ => 0), r.moves);
    forall i | 0 <= i < |run.moves|
      ensures Next(run.jobs, run.states[i], run.states[i + 1], run.workers[i], run.moves[i])
    {
      assert run.workers[i] == 0;
    }
  }

  // ------------------------------------------------------------------ what one import achieves

  ghost predicate Sound(names: map<Name, Inode>, data: map<Inode, Content>) {
    forall n | n in names :: names[n] in data
  }

  ghost predicate JobApart(job: Job) {
    IsTemp(job.temp) && !IsTemp(job.target) && !IsTemp(job.source)
  }

  /** Whether the whole source can be brought into the temporary file. */
  ghost predicate CanBuild(names: map<Name, Inode>, data: map<Inode, Content>, job: Job, a: Answers) {
    && job.source in names && names[job.source] in data
    && (a.linkWorks || (a.hasRoom && (a.stopsAfter.None? || a.stopsAfter.value >= |data[names[job.source]]|)))
  }

  ghost function ExpectedOutcome(names: map<Name, Inode>, data: map<Inode, Content>, job: Job, a: Answers): Outcome {
    if LooksSame(At(names, data, Start), job.source, job.target) then Skipped
    else if job.target in names && !job.overwrite then Conflict
    else if CanBuild(names, data, job, a) && a.publishWorks then Published
    else Failed
  }

  /** Whether the temporary name is left behind by an import that goes on to bind the target. */
  ghost predicate TempLeft(names: map<Name, Inode>, data: map<Inode, Content>, job: Job, a: Answers) {
    if !CanBuild(names, data, job, a) then !a.unlinkWorks && job.source in names && a.hasRoom
    else if a.publishWorks then !a.unlinkWorks && !job.overwrite
    else !a.unlinkWorks || (job.overwrite && a.linkWorks)
  }

  ghost predicate TempStays(names: map<Name, Inode>, data: map<Inode, Content>, job: Job, a: Answers) {
    && (ExpectedOutcome(names, data, job, a) == Published || ExpectedOutcome(names, data, job, a) == Failed)
    && TempLeft(names, data, job, a)
  }

  /** Files that existed keep their contents. */
  ghost predicate Kept(before: map<Inode, Content>, after: map<Inode, Content>) {
    forall i | i in before :: i in after && after[i] == before[i]
  }

  class FileSystem {
    var names: map<Name, Inode>
    var data: map<Inode, Content>

    constructor (names: map<Name, Inode>, data: map<Inode, Content>)
      ensures this.names == names && this.data == data
    {
      this.names, this.data := names, data;
    }

    /** Leftovers of earlier imports of the target that are old enough go. */
    method Sweep(job: Job, stale: set<Name>, ghost first: State, ghost r: Trace) returns (ghost out: Trace)
      requires Reaches(job, first, r, At(names, data, Ready))
      modifies this`names
      ensures names == old(names) - set n | n in stale && IsTempOf(job.target, n)
      ensures Reaches(job, first, out, At(names, data, Ready))
    {
      hide Acts, Reaches, IsTempOf;
      out := r;
      var rest := set n | n in stale && IsTempOf(job.target, n);
      ghost var all := rest;
      while rest != {}
        invariant rest <= all && names == old(names) - (all - rest)
        invariant Reaches(job, first, out, At(names, data, Ready))
        decreases |rest|
      {
        var n :| n in rest;
        ghost var before := At(names, data, Ready);
        names := names - {n};
        SweepActs(job, before, n);
        Moved(job, first, out, before, At(names, data, Ready), Move.Sweep(n));
        out := Then(out, At(names, data, Ready), Move.Sweep(n));
        rest := rest - {n};
      }
      assert all - rest == all;
    }

    /** Copies the source into a new file under the temporary name. */
    method CopyToTemp(job: Job, made: Inode, a: Answers, ghost first: State, ghost r: Trace)
      returns (ok: bool, ghost out: Trace)
      requires Reaches(job, first, r, At(names, data, CopyReady)) && Sound(names, data)
      requires job.source in names && job.temp !in names && made !in data
      modifies this
      ensures Kept(old(data), data) && names == old(names)[job.temp := made] && made in data
      ensures ok <==> a.stopsAfter.None? || a.stopsAfter.value >= |old(data)[old(names)[job.source]]|
      ensures ok ==> data[made] == old(data)[old(names)[job.source]]
      ensures Reaches(job, first, out, At(names, data, if ok then Built(false) else Failing))
    {
      hide Acts, Reaches;
      var from := names[job.source];
      var content := data[from];
      ghost var before := At(names, data, CopyReady);
      names, data := names[job.temp := made], data[made := ""];
      OpenActs(job, before, made);
      out := Then(r, At(names, data, Copying(from, made, 0)), OpenCopy(made));
      Moved(job, first, r, before, At(names, data, Copying(from, made, 0)), OpenCopy(made));
      var done := 0;
      while done < |content|
        invariant done <= |content| && names == old(names)[job.temp := made] && from in data && made in data
        invariant Kept(old(data), data) && data[from] == content && data[made] == content[..done]
        invariant a.stopsAfter.Some? && a.stopsAfter.value < |content| ==> done <= a.stopsAfter.value
        invariant Reaches(job, first, out, At(names, data, Copying(from, made, done)))
      {
        if a.stopsAfter.Some? && a.stopsAfter.value <= done {
          StopActs(job, At(names, data, Copying(from, made, done)), FailCopy, Failing);
          Moved(job, first, out, At(names, data, Copying(from, made, done)), At(names, data, Failing), FailCopy);
          out := Then(out, At(names, data, Failing), FailCopy);
          return false, out;
        }
        var size := if |content| - done < COPY_BUFFER then |content| - done else COPY_BUFFER;
        if a.stopsAfter.Some? && done + size > a.stopsAfter.value { size := a.stopsAfter.value - done; }
        before := At(names, data, Copying(from, made, done));
        data := data[made := data[made] + content[done..done + size]];
        assert content[..done] + content[done..done + size] == content[..done + size];
        WriteActs(job, before, from, made, done, size);
        Moved(job, first, out, before, At(names, data, Copying(from, made, done + size)), WriteChunk(size));
        out := Then(out, At(names, data, Copying(from, made, done + size)), WriteChunk(size));
        done := done + size;
      }
      assert content[..done] == content;
      StopActs(job, At(names, data, Copying(from, made, done)), FinishCopy, Built(false));
      Moved(job, first, out, At(names, data, Copying(from, made, done)), At(names, data, Built(false)), FinishCopy);
      return true, Then(out, At(names, data, Built(false)), FinishCopy);
    }

    /** Publishes the temporary file, if the call works; alone, nothing can get in between. */
    method PublishTemp(job: Job, a: Answers, linked: bool, ghost first: State, ghost r: Trace)
      returns (ok: bool, ghost out: Trace)
      requires Reaches(job, first, r, At(names, data, Built(linked))) && JobApart(job)
      requires job.temp in names && (job.target in names ==> job.overwrite && names[job.target] != names[job.temp])
      modifies this`names
      ensures ok <==> a.publishWorks
      ensures ok ==>
        names == (if job.overwrite || a.unlinkWorks then old(names) - {job.temp} else old(names))
                 [job.target := old(names)[job.temp]]
      ensures !ok ==>
        names == if a.unlinkWorks && !(job.overwrite && linked) then old(names) - {job.temp} else old(names)
      ensures Reaches(job, first, out, At(names, data, Finished(if ok then Published else Failed)))
    {
      hide Acts, Reaches;
      ghost var before := At(names, data, Built(linked));
      if !a.publishWorks {
        RaiseActs(job, before);
        ghost var after := At(names, data, GivenUp(job, Built(linked)));
        Moved(job, first, r, before, after, PublishRaises);
        out := Then(r, after, PublishRaises);
        if !(job.overwrite && linked) {
          out := CleanUp(job, a, first, out);
        }
        return false, out;
      }
      PublishActs(job, before);
      if job.overwrite {
        names := (names - {job.temp})[job.target := names[job.temp]];
        Moved(job, first, r, before, At(names, data, Finished(Published)), Move.Publish);
        return true, Then(r, At(names, data, Finished(Published)), Move.Publish);
      }
      names := names[job.target := names[job.temp]];
      ghost var there := At(names, data, Unlinking(Published));
      Moved(job, first, r, before, there, Move.Publish);
      out := Then(r, there, Move.Publish);
      UnlinkActs(job, there, a.unlinkWorks);
      if a.unlinkWorks { names := names - {job.temp}; }
      Moved(job, first, out, there, At(names, data, Finished(Published)), Move.Unlink(a.unlinkWorks));
      return true, Then(out, At(names, data, Finished(Published)), Move.Unlink(a.unlinkWorks));
    }

    /** Gives up after a copy or a publish that failed. */
    method CleanUp(job: Job, a: Answers, ghost first: State, ghost r: Trace) returns (ghost out: Trace)
      requires Reaches(job, first, r, At(names, data, Failing))
      modifies this`names
      ensures names == if a.unlinkWorks then old(names) - {job.temp} else old(names)
      ensures Reaches(job, first, out, At(names, data, Finished(Failed)))
    {
      hide Acts, Reaches;
      ghost var before := At(names, data, Failing);
      UnlinkActs(job, before, a.unlinkWorks);
      if a.unlinkWorks { names := names - {job.temp}; }
      Moved(job, first, r, before, At(names, data, Finished(Failed)), Move.Unlink(a.unlinkWorks));
      out := Then(r, At(names, data, Finished(Failed)), Move.Unlink(a.unlinkWorks));
    }

    /** Brings the source under the temporary name, by a hard link or else by a copy. */
    method BuildTemp(job: Job, made: Inode, a: Answers, ghost first: State, ghost r: Trace)
      returns (ok: bool, ghost out: Trace)
      requires Reaches(job, first, r, At(names, data, Ready)) && Sound(names, data) && JobApart(job)
      requires job.temp !in names && made !in data
      modifies this
      ensures Kept(old(data), data) && Sound(names, data)
      ensures ok <==> CanBuild(old(names), old(data), job, a)
      ensures ok ==>
        && job.temp in names && names == old(names)[job.temp := names[job.temp]]
        && data[names[job.temp]] == old(data)[old(names)[job.source]]
        && (names[job.temp] == made || names[job.temp] == old(names)[job.source])
        && Reaches(job, first, out, At(names, data, Built(a.linkWorks)))
      ensures !ok ==>
        && (names - {job.temp} == old(names)) && (a.unlinkWorks ==> names == old(names))
        && (job.temp in names <==> !a.unlinkWorks && job.source in old(names) && a.hasRoom)
        && Reaches(job, first, out, At(names, data, Finished(Failed)))
    {
      hide Acts, Reaches, IsTemp;
      ghost var before := At(names, data, Ready);
      LinkActs(job, before, a.linkWorks);
      if a.linkWorks && job.source in names {
        names := names[job.temp := names[job.source]];
        Moved(job, first, r, before, At(names, data, Built(true)), TryLink(a.linkWorks));
        return true, Then(r, At(names, data, Built(true)), TryLink(a.linkWorks));
      }
      Moved(job, first, r, before, At(names, data, CopyReady), TryLink(a.linkWorks));
      out := Then(r, At(names, data, CopyReady), TryLink(a.linkWorks));
      if job.source !in names || !a.hasRoom {
        RefuseActs(job, At(names, data, CopyReady));
        Moved(job, first, out, At(names, data, CopyReady), At(names, data, Finished(Failed)), Refuse);
        assert names - {job.temp} == names;
        return false, Then(out, At(names, data, Finished(Failed)), Refuse);
      }
      ok, out := CopyToTemp(job, made, a, first, out);
      if !ok {
        out := CleanUp(job, a, first, out);
        assert names - {job.temp} == old(names);
      }
    }

    /**
     * One import with no other at work. The outcome follows from what was there and how the file
     * system answers; only the target, the temporary name and swept leftovers are ever bound anew.
     */
    method Import(job: Job, made: Inode, a: Answers, stale: set<Name>) returns (outcome: Outcome, ghost r: Trace)
      requires Sound(names, data) && JobApart(job) && job.temp !in names && made !in data
      modifies this
      ensures outcome == ExpectedOutcome(old(names), old(data), job, a)
      ensures outcome == Skipped <==>
        && job.source in old(names) && job.target in old(names)
        && (|| old(names)[job.source] == old(names)[job.target]
            || |old(data)[old(names)[job.source]]| == |old(data)[old(names)[job.target]]|)
      ensures outcome == Conflict <==>
        && job.target in old(names) && !job.overwrite
        && (job.source in old(names) ==>
              && old(names)[job.source] != old(names)[job.target]
              && |old(data)[old(names)[job.source]]| != |old(data)[old(names)[job.target]]|)
      ensures Kept(old(data), data)
      ensures outcome == Published ==>
        && job.target in names && names[job.target] in data
        && job.source in old(names) && old(names)[job.source] in old(data)
        && data[names[job.target]] == old(data)[old(names)[job.source]]
      ensures outcome != Published ==> SameBinding(old(names), names, job.target)
      ensures outcome == Skipped || outcome == Conflict ==> names == old(names) && data == old(data)
      ensures forall n | n != job.target && n != job.temp && !(n in stale && IsTempOf(job.target, n)) ::
        SameBinding(old(names), names, n)
      ensures job.temp in names <==> TempStays(old(names), old(data), job, a)
      ensures Reaches(job, At(old(names), old(data), Start), r, At(names, data, Finished(outcome)))
    {
      hide Acts, Reaches, LooksSame, IsTemp, IsTempOf, CanBuild, TempLeft;
      ghost var first := At(names, data, Start);
      Started(job, first);
      SameMeans(names, data, job);
      r := Trace([first], []);
      LookActs(job, first);
      if job.target in names {
        Moved(job, first, r, first, At(names, data, Seen), Look);
        r := Then(r, At(names, data, Seen), Look);
        CompareActs(job, At(names, data, Seen));
        var same := LooksSame(State(names, data, map[]), job.source, job.target);
        SameLooks(names, data, job);
        var phase := if same then Finished(Skipped) else if !job.overwrite then Finished(Conflict) else Ready;
        Moved(job, first, r, At(names, data, Seen), At(names, data, phase), Compare);
        r := Then(r, At(names, data, phase), Compare);
        if same || !job.overwrite {
          AllSame(names);
          return if same then Skipped else Conflict, r;
        }
      } else {
        NotThere(names, data, job);
        Moved(job, first, r, first, At(names, data, Ready), Look);
        r := Then(r, At(names, data, Ready), Look);
      }
      SweepSpares(job, stale);
      r := Sweep(job, stale, first, r);
      ghost var swept := names;
      Swept(old(names), swept, data, job, stale, a);
      outcome, r := Bring(job, made, a, first, r);
      forall n | n != job.target && n != job.temp && !(n in stale && IsTempOf(job.target, n))
        ensures SameBinding(old(names), names, n)
      {
        assert SameBinding(old(names), swept, n) && SameBinding(swept, names, n);
      }
    }

    /** The part of an import that comes after the sweep: building the temporary file and publishing it. */
    method Bring(job: Job, made: Inode, a: Answers, ghost first: State, ghost r: Trace)
      returns (outcome: Outcome, ghost out: Trace)
      requires Reaches(job, first, r, At(names, data, Ready)) && Sound(names, data) && JobApart(job)
      requires job.temp !in names && made !in data
      requires job.target in names ==> job.overwrite && (job.source in names ==> names[job.source] != names[job.target])
      modifies this
      ensures Kept(old(data), data)
      ensures outcome == if CanBuild(old(names), old(data), job, a) && a.publishWorks then Published else Failed
      ensures outcome == Published ==>
        && job.target in names && names[job.target] in data
        && job.source in old(names) && old(names)[job.source] in old(data)
        && data[names[job.target]] == old(data)[old(names)[job.source]]
      ensures outcome != Published ==> SameBinding(old(names), names, job.target)
      ensures forall n | n != job.target && n != job.temp :: SameBinding(old(names), names, n)
      ensures job.temp in names <==> TempLeft(old(names), old(data), job, a)
      ensures Reaches(job, first, out, At(names, data, Finished(outcome)))
    {
      hide Acts, Reaches, LooksSame, IsTemp, IsTempOf;
      var ok;
      ok, out := BuildTemp(job, made, a, first, r);
      if !ok {
        return Failed, out;
      }
      ok, out := PublishTemp(job, a, a.linkWorks, first, out);
      outcome := if ok then Published else Failed;
    }
  }

  lemma SweepActs(job: Job, s: State, n: Name)
    requires s == At(s.names, s.data, Ready) && IsTempOf(job.target, n)
    ensures Acts(job, s, At(s.names - {n}, s.data, Ready), 0, s.phases[0], Move.Sweep(n))
  {
    hide IsTempOf;
  }

  lemma OpenActs(job: Job, s: State, made: Inode)
    requires s == At(s.names, s.data, CopyReady) && job.source in s.names && s.names[job.source] in s.data
    requires job.temp !in s.names && made !in s.data
    ensures Acts(job, s, At(s.names[job.temp := made], s.data[made := ""], Copying(s.names[job.source], made, 0)), 0,
      s.phases[0], OpenCopy(made))
  {
  }

  lemma WriteActs(job: Job, s: State, from: Inode, to: Inode, done: nat, size: nat)
    requires s == At(s.names, s.data, Copying(from, to, done)) && from in s.data && to in s.data
    requires done + size <= |s.data[from]|
    ensures Acts(job, s,
      At(s.names, s.data[to := s.data[to] + s.data[from][done..done + size]], Copying(from, to, done + size)), 0,
      s.phases[0], WriteChunk(size))
  {
  }

  lemma StopActs(job: Job, s: State, m: Move, phase: Phase)
    requires 0 in s.phases && s == At(s.names, s.data, s.phases[0]) && s.phases[0].Copying?
    requires
      || (m == FailCopy && phase == Failing)
      || (&& m == FinishCopy && phase == Built(false)
          && s.phases[0].from in s.data && s.phases[0].done == |s.data[s.phases[0].from]|)
    ensures Acts(job, s, At(s.names, s.data, phase), 0, s.phases[0], m)
  {
  }

  lemma RaiseActs(job: Job, s: State)
    requires 0 in s.phases && s == At(s.names, s.data, s.phases[0]) && s.phases[0].Built?
    ensures Acts(job, s, At(s.names, s.data, GivenUp(job, s.phases[0])), 0, s.phases[0], PublishRaises)
  {
  }

  lemma PublishActs(job: Job, s: State)
    requires 0 in s.phases && s == At(s.names, s.data, s.phases[0]) && s.phases[0].Built? && job.temp in s.names
    requires job.target in s.names ==> job.overwrite && s.names[job.target] != s.names[job.temp]
    ensures job.overwrite ==>
      Acts(job, s, At((s.names - {job.temp})[job.target := s.names[job.temp]], s.data, Finished(Published)), 0,
        s.phases[0], Move.Publish)
    ensures !job.overwrite ==>
      Acts(job, s, At(s.names[job.target := s.names[job.temp]], s.data, Unlinking(Published)), 0,
        s.phases[0], Move.Publish)
  {
  }

  lemma UnlinkActs(job: Job, s: State, works: bool)
    requires 0 in s.phases && s == At(s.names, s.data, s.phases[0]) && (s.phases[0].Unlinking? || s.phases[0].Failing?)
    ensures Acts(job, s,
      At(if works then s.names - {job.temp} else s.names, s.data,
        Finished(if s.phases[0].Unlinking? then s.phases[0].outcome else Failed)), 0, s.phases[0], Move.Unlink(works))
  {
  }

  lemma LinkActs(job: Job, s: State, works: bool)
    requires s == At(s.names, s.data, Ready) && job.temp !in s.names
    ensures Acts(job, s,
      if works && job.source in s.names then At(s.names[job.temp := s.names[job.source]], s.data, Built(true))
      else At(s.names, s.data, CopyReady), 0, s.phases[0], TryLink(works))
  {
  }

  lemma RefuseActs(job: Job, s: State)
    requires s == At(s.names, s.data, CopyReady)
    ensures Acts(job, s, At(s.names, s.data, Finished(Failed)), 0, s.phases[0], Refuse)
  {
  }

  ghost predicate SameBinding(before: map<Name, Inode>, after: map<Name, Inode>, n: Name) {
    (n in before <==> n in after) && (n in before ==> after[n] == before[n])
  }

  lemma LookActs(job: Job, s: State)
    requires s == At(s.names, s.data, Start)
    ensures Acts(job, s, At(s.names, s.data, if job.target in s.names then Seen else Ready), 0, s.phases[0], Look)
  {
  }

  lemma CompareActs(job: Job, s: State)
    requires s == At(s.names, s.data, Seen)
    ensures Acts(job, s,
      At(s.names, s.data,
        if LooksSame(s, job.source, job.target) then Finished(Skipped)
        else if !job.overwrite then Finished(Conflict)
        else Ready), 0, s.phases[0], Compare)
  {
    hide LooksSame;
  }

  /** The comparison reads names and contents only, and finds a file the same as itself. */
  lemma SameLooks(names: map<Name, Inode>, data: map<Inode, Content>, job: Job)
    requires Sound(names, data)
    ensures forall p, q ::
      LooksSame(State(names, data, p), job.source, job.target) ==
      LooksSame(State(names, data, q), job.source, job.target)
    ensures job.source in names && job.target in names && names[job.source] == names[job.target] ==>
      LooksSame(At(names, data, Start), job.source, job.target)
  {
  }

  /** Skipped are targets that are the source, or as long as it. */
  lemma SameMeans(names: map<Name, Inode>, data: map<Inode, Content>, job: Job)
    requires Sound(names, data)
    ensures LooksSame(At(names, data, Start), job.source, job.target) <==>
      && job.source in names && job.target in names
      && (names[job.source] == names[job.target] || |data[names[job.source]]| == |data[names[job.target]]|)
  {
  }

  lemma NotThere(names: map<Name, Inode>, data: map<Inode, Content>, job: Job)
    requires job.target !in names
    ensures !LooksSame(At(names, data, Start), job.source, job.target)
  {
  }

  lemma SweepSpares(job: Job, stale: set<Name>)
    requires JobApart(job)
    ensures !IsTempOf(job.target, job.target) && !IsTempOf(job.target, job.source)
  {
  }

  /** What the sweep takes away matters to nothing but the swept names. */
  lemma Swept(before: map<Name, Inode>, swept: map<Name, Inode>, data: map<Inode, Content>, job: Job, stale: set<Name>,
    a: Answers)
    requires JobApart(job) && swept == before - (set n | n in stale && IsTempOf(job.target, n))
    ensures CanBuild(swept, data, job, a) <==> CanBuild(before, data, job, a)
    ensures TempLeft(swept, data, job, a) <==> TempLeft(before, data, job, a)
    ensures SameBinding(before, swept, job.target) && SameBinding(before, swept, job.source)
    ensures forall n | !(n in stale && IsTempOf(job.target, n)) :: SameBinding(before, swept, n)
  {
    SweepSpares(job, stale);
    hide IsTempOf;
  }

  lemma AllSame(names: map<Name, Inode>)
    ensures forall n :: SameBinding(names, names, n)
  {
  }

  // ------------------------------------------------------------------ a temporary name left behind

  const REPLACE: Job := Job("film.mkv", "download.mkv", true, "film.mkv.1.mmpart")

  /** A new import that may overwrite: the link works, replacing the target fails, and the temporary name stays. */
  method HardLinkStays() returns (files: FileSystem, outcome: Outcome)
    ensures fresh(files) && outcome == Failed
    ensures "film.mkv" !in files.names && "film.mkv.1.mmpart" in files.names
  {
    hide Reaches, LooksSame;
    var a := Answers(true, true, None, false, true);
    TempsNamed();
    files := new FileSystem(map["download.mkv" := 1], map[1 := "video"]);
    ghost var r;
    NotThere(files.names, files.data, REPLACE);
    outcome, r := files.Import(REPLACE, 2, a, {});
  }

  lemma TempsNamed()
    ensures JobApart(REPLACE)
  {
    assert REPLACE.temp[|REPLACE.temp| - |TEMP_SUFFIX|..] == TEMP_SUFFIX;
    assert REPLACE.target[|REPLACE.target| - |TEMP_SUFFIX|..][0] == 'i';
    assert REPLACE.source[|REPLACE.source| - |TEMP_SUFFIX|..][0] == 'o';
  }

  // ------------------------------------------------------------------ a target of the same size

  /** A target with other content but of the same size is taken for an earlier import, and left as it is. */
  method SameSizeSkipped() returns (files: FileSystem, outcome: Outcome)
    ensures fresh(files) && outcome == Skipped
    ensures files.names == map["download.mkv" := 1, "film.mkv" := 2] && files.data == map[1 := "new", 2 := "old"]
  {
    hide Reaches, LooksSame;
    TempsNamed();
    files := new FileSystem(map["download.mkv" := 1, "film.mkv" := 2], map[1 := "new", 2 := "old"]);
    ghost var r;
    outcome, r := files.Import(REPLACE, 3, Answers(true, true, None, true, true), {});
  }
}
