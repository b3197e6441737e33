/** Publishing a file in the library through a temporary name, by many importers that may crash anywhere. */
module ImportFile {
  type Name = string
  type Inode = nat
  type Content = string
  type Worker = nat

  const TEMP_SUFFIX: string := ".mmpart"

  predicate IsTemp(n: Name) {
    |n| >= |TEMP_SUFFIX| && n[|n| - |TEMP_SUFFIX|..] == TEMP_SUFFIX
  }

  /** What the sweep for leftovers of a target matches. */
  predicate IsTempOf(target: Name, n: Name) {
    && target + "." <= n && IsTemp(n) && |n| > |target| + |TEMP_SUFFIX|
    && '/' !in n[|target|..]
  }

  /** That is the target's name, a dot, anything without a slash, and the suffix of temporary files. */
  lemma IsTempOfIff(target: Name, n: Name)
    ensures IsTempOf(target, n) <==> exists middle :: '/' !in middle && n == target + "." + middle + ".mmpart"
  {
    if IsTempOf(target, n) {
      var middle := n[|target| + 1..|n| - 7];
      assert n == target + "." + middle + ".mmpart";
      assert forall c | c in middle :: c in n[|target|..];
    }
    if middle :| '/' !in middle && n == target + "." + middle + ".mmpart" {
      assert n[..|target| + 1] == target + "." && n[|n| - 7..] == ".mmpart";
      assert n[|target|..] == "." + middle + ".mmpart";
    }
  }

  /** One call: what to import where, and the unique temporary name drawn for it. */
  datatype Job = Job(target: Name, source: Name, overwrite: bool, temp: Name)

  datatype Outcome = Skipped | Conflict | Published | AlreadyDone | Failed

  /** A worker that crashes takes no further step. */
  datatype Phase =
    | Start
    | Seen
    | Ready
    | CopyReady
    | Copying(from: Inode, to: Inode, done: nat)
    | Built(linked: bool)
    | Unlinking(outcome: Outcome)
    | Failing
    | Finished(outcome: Outcome)

  datatype State = State(names: map<Name, Inode>, data: map<Inode, Content>, phases: map<Worker, Phase>)

  type Jobs = map<Worker, Job>

  /** The same file, or one of the same size. */
  predicate LooksSame(s: State, source: Name, target: Name) {
    && source in s.names && target in s.names && s.names[source] in s.data && s.names[target] in s.data
    && (s.names[source] == s.names[target] || |s.data[s.names[source]]| == |s.data[s.names[target]]|)
  }

  datatype Move =
    | Look
    | Compare
    | Sweep(name: Name)
    | TryLink(works: bool)
    | Refuse
    | OpenCopy(made: Inode)
    | WriteChunk(size: nat)
    | FinishCopy
    | FailCopy
    | Publish
    | PublishRaises
    | Unlink(works: bool)

  function Enter(s: State, w: Worker, phase: Phase): State {
    s.(phases := s.phases[w := phase])
  }

  /** A publish that raises leaves a hard link that was to replace the target; in all other cases it is unlinked. */
  function GivenUp(job: Job, phase: Phase): Phase {
    if job.overwrite && phase.Built? && phase.linked then Finished(Failed) else Failing
  }

  ghost predicate Acts(job: Job, s: State, t: State, w: Worker, phase: Phase, m: Move) {
    match m
    case Look =>
      phase.Start? && t == Enter(s, w, if job.target in s.names then Seen else Ready)
    case Compare =>
      phase.Seen? && t == Enter(s, w,
        if LooksSame(s, job.source, job.target) then Finished(Skipped)
        else if !job.overwrite then Finished(Conflict)
        else Ready)
    case Sweep(name) =>
      phase.Ready? && IsTempOf(job.target, name) && t == s.(names := s.names - {name})
    case TryLink(works) =>
      && phase.Ready?
      && if job.temp in s.names then
           t == Enter(s, w, Unlinking(if LooksSame(s, job.source, job.target) then AlreadyDone else Conflict))
         else if works && job.source in s.names then
           t == Enter(s.(names := s.names[job.temp := s.names[job.source]]), w, Built(true))
         else t == Enter(s, w, CopyReady)
    case Refuse =>
      phase.CopyReady? && t == Enter(s, w, Finished(Failed))
    case OpenCopy(made) =>
      // opening an existing file for writing empties it
      && phase.CopyReady? && job.source in s.names && s.names[job.source] in s.data
      && (job.temp !in s.names ==> made !in s.data)
      && var to := if job.temp in s.names then s.names[job.temp] else made;
      t == Enter(
        s.(names := s.names[job.temp := to], data := s.data[to := ""]), w, Copying(s.names[job.source], to, 0))
    case WriteChunk(size) =>
      && phase.Copying? && phase.from in s.data && phase.to in s.data
      && phase.done + size <= |s.data[phase.from]|
      && var chunk := s.data[phase.from][phase.done..phase.done + size];
      t == Enter(
        s.(data := s.data[phase.to := s.data[phase.to] + chunk]), w, phase.(done := phase.done + size))
    case FinishCopy =>
      && phase.Copying? && phase.from in s.data && phase.done == |s.data[phase.from]| && t == Enter(s, w, Built(false))
    case FailCopy =>
      phase.Copying? && t == Enter(s, w, Failing)
    case Publish =>
      && phase.Built?
      && if job.temp !in s.names then t == Enter(s, w, GivenUp(job, phase))
         else if job.overwrite then
           // renaming onto another name of the same file does nothing
           if job.target in s.names && s.names[job.target] == s.names[job.temp] then
             t == Enter(s, w, Finished(Published))
           else
             t == Enter(
               s.(names := (s.names - {job.temp})[job.target := s.names[job.temp]]), w, Finished(Published))
         else if job.target in s.names then
           t == Enter(s, w, Unlinking(if LooksSame(s, job.source, job.target) then AlreadyDone else Conflict))
         else t == Enter(s.(names := s.names[job.target := s.names[job.temp]]), w, Unlinking(Published))
    case PublishRaises =>
      phase.Built? && t == Enter(s, w, GivenUp(job, phase))
    case Unlink(works) =>
      && (phase.Unlinking? || phase.Failing?)
      && t == Enter(
        if works then s.(names := s.names - {job.temp}) else s, w,
        Finished(if phase.Unlinking? then phase.outcome else Failed))
  }

  ghost predicate Next(jobs: Jobs, s: State, t: State, w: Worker, m: Move) {
    w in jobs && w in s.phases && Acts(jobs[w], s, t, w, s.phases[w], m)
  }

  // ------------------------------------------------------------------ runs

  /** Temporary names are unique; targets and sources are not named like temporary files. */
  ghost predicate JobsApart(jobs: Jobs) {
    && (forall w | w in jobs :: IsTemp(jobs[w].temp) && !IsTemp(jobs[w].target) && !IsTemp(jobs[w].source))
    && (forall v, w | v in jobs && w in jobs && v != w :: jobs[v].temp != jobs[w].temp)
  }

  ghost predicate Init(jobs: Jobs, s: State) {
    && s.phases.Keys == jobs.Keys
    && (forall n | n in s.names :: s.names[n] in s.data)
    && (forall w | w in jobs :: s.phases[w] == Start && jobs[w].temp !in s.names)
  }

  datatype Run = Run(jobs: Jobs, states: seq<State>, workers: seq<Worker>, moves: seq<Move>)

  ghost predicate IsRun(r: Run) {
    && JobsApart(r.jobs)
    && |r.states| == |r.workers| + 1 == |r.moves| + 1 && Init(r.jobs, r.states[0])
    && forall i | 0 <= i < |r.moves| :: Next(r.jobs, r.states[i], r.states[i + 1], r.workers[i], r.moves[i])
  }

  // ------------------------------------------------------------------ the invariant

  /** For every name, the contents it may show. */
  type May = Name -> set<Content>

  /** Every name may show what it showed at first, and a target what the sources of its importers may show. */
  ghost predicate Closed(may: May, jobs: Jobs, first: State) {
    && (forall n | n in first.names && first.names[n] in first.data && !IsTemp(n) ::
          first.data[first.names[n]] in may(n))
    && (forall w | w in jobs :: may(jobs[w].source) <= may(jobs[w].target))
  }

  ghost predicate NamesFit(may: May, s: State) {
    forall n | n in s.names :: s.names[n] in s.data && (!IsTemp(n) ==> s.data[s.names[n]] in may(n))
  }

  /** What existed at first is never written. */
  ghost predicate FirstKept(first: State, s: State) {
    forall i | i in first.data :: i in s.data && s.data[i] == first.data[i]
  }

  /** The file being written has no other name, and no other worker reads or writes it. */
  ghost predicate Private(jobs: Jobs, first: State, s: State, w: Worker, to: Inode)
    requires w in jobs
  {
    && to !in first.data
    && (forall n | n in s.names && s.names[n] == to :: n == jobs[w].temp)
    && (forall v | v in s.phases && v != w && s.phases[v].Copying? :: s.phases[v].to != to && s.phases[v].from != to)
  }

  ghost predicate CopyFits(may: May, jobs: Jobs, first: State, s: State, w: Worker, p: Phase)
    requires w in jobs && p.Copying?
  {
    && p.from in s.data && p.to in s.data && p.from != p.to && p.done <= |s.data[p.from]|
    && s.data[p.to] == s.data[p.from][..p.done] && s.data[p.from] in may(jobs[w].source)
    && (jobs[w].temp in s.names ==> s.names[jobs[w].temp] == p.to)
    && Private(jobs, first, s, w, p.to)
  }

  ghost predicate TempComplete(may: May, job: Job, s: State) {
    job.temp in s.names ==> s.names[job.temp] in s.data && s.data[s.names[job.temp]] in may(job.source)
  }

  ghost predicate WorkerFits(may: May, jobs: Jobs, first: State, s: State, w: Worker)
    requires w in jobs && w in s.phases
  {
    var p := s.phases[w];
    match p
    case Copying(_, _, _) => CopyFits(may, jobs, first, s, w, p)
    case Built(_) => TempComplete(may, jobs[w], s)
    case Start | Seen | Ready | CopyReady => jobs[w].temp !in s.names
    case Unlinking(_) => true
    case Failing => true
    case Finished(_) => true
  }

  ghost predicate Inv(may: May, jobs: Jobs, first: State, s: State) {
    && s.phases.Keys == jobs.Keys && NamesFit(may, s) && FirstKept(first, s)
    && forall w | w in jobs :: WorkerFits(may, jobs, first, s, w)
  }

  lemma {:induction false} InitFits(may: May, jobs: Jobs, s: State)
    requires Init(jobs, s) && Closed(may, jobs, s)
    ensures Inv(may, jobs, s, s)
  {
  }

  // What a step leaves alone for the other workers.

  /** Nothing another worker relies on has changed: its temporary name, the files it copies, and its privacy. */
  ghost predicate LeavesAlone(jobs: Jobs, s: State, t: State, v: Worker)
    requires v in jobs && v in s.phases && v in t.phases
  {
    var temp, p := jobs[v].temp, s.phases[v];
    && t.phases[v] == p
    && (temp in t.names ==> temp in s.names && t.names[temp] == s.names[temp])
    && (temp in t.names && s.names[temp] in s.data && !p.Copying? ==>
          s.names[temp] in t.data && t.data[s.names[temp]] == s.data[s.names[temp]])
    && (p.Copying? && p.from in s.data && p.to in s.data ==>
          && p.from in t.data && p.to in t.data
          && t.data[p.from] == s.data[p.from] && t.data[p.to] == s.data[p.to]
          && (forall n | n in t.names && t.names[n] == p.to :: n in s.names && s.names[n] == p.to)
          && (forall u | u in t.phases && u != v && t.phases[u].Copying? ::
                t.phases[u].to != p.to && t.phases[u].from != p.to))
  }

  lemma AloneFits(may: May, jobs: Jobs, first: State, s: State, t: State, v: Worker)
    requires v in jobs && v in s.phases && v in t.phases && WorkerFits(may, jobs, first, s, v)
    requires LeavesAlone(jobs, s, t, v)
    ensures WorkerFits(may, jobs, first, t, v)
  {
  }

  ghost predicate Stepped(may: May, jobs: Jobs, first: State, s: State, t: State, w: Worker, m: Move) {
    JobsApart(jobs) && Closed(may, jobs, first) && Inv(may, jobs, first, s) && Next(jobs, s, t, w, m)
  }

  /** Moves that only change the phase of their worker. */
  predicate IsQuiet(m: Move) {
    m.Look? || m.Compare? || m.Refuse? || m.FinishCopy? || m.FailCopy? || m.PublishRaises?
  }

  lemma QuietEffect(job: Job, s: State, t: State, w: Worker, p: Phase, m: Move)
    requires Acts(job, s, t, w, p, m) && IsQuiet(m) && w in s.phases
    ensures t.names == s.names && t.data == s.data
    ensures w in t.phases && t.phases == s.phases[w := t.phases[w]] && !t.phases[w].Copying?
  {
    hide LooksSame;
  }

  lemma QuietLeavesAlone(may: May, jobs: Jobs, first: State, s: State, t: State, w: Worker, m: Move, v: Worker)
    requires Stepped(may, jobs, first, s, t, w, m) && IsQuiet(m) && v in jobs && v != w
    ensures LeavesAlone(jobs, s, t, v)
  {
    hide IsTemp, LooksSame, IsTempOf, Closed, NamesFit, FirstKept, Stepped, Acts, WorkerFits, LeavesAlone, CopyFits,
      Inv;
    TempsApart(may, jobs, first, s, t, w, m, v);
    QuietEffect(jobs[w], s, t, w, s.phases[w], m);
    PhaseLeavesAlone(may, jobs, first, s, t, w, v);
  }

  /** Sweeping and unlinking take temporary names away. */
  lemma RemovalLeavesAlone(may: May, jobs: Jobs, first: State, s: State, t: State, w: Worker, m: Move, v: Worker)
    requires Stepped(may, jobs, first, s, t, w, m) && (m.Sweep? || m.Unlink?) && v in jobs && v != w
    ensures LeavesAlone(jobs, s, t, v)
  {
    hide IsTemp, LooksSame, IsTempOf, Closed, NamesFit, FirstKept;
    assert WorkerFits(may, jobs, first, s, v) && WorkerFits(may, jobs, first, s, w);
  }

  lemma LinkLeavesAlone(may: May, jobs: Jobs, first: State, s: State, t: State, w: Worker, m: Move, v: Worker)
    requires Stepped(may, jobs, first, s, t, w, m) && m.TryLink? && v in jobs && v != w
    ensures LeavesAlone(jobs, s, t, v)
  {
    hide LooksSame, IsTempOf, Closed, NamesFit, FirstKept;
    assert WorkerFits(may, jobs, first, s, v) && WorkerFits(may, jobs, first, s, w);
  }

  lemma PublishLeavesAlone(may: May, jobs: Jobs, first: State, s: State, t: State, w: Worker, m: Move, v: Worker)
    requires Stepped(may, jobs, first, s, t, w, m) && m.Publish? && v in jobs && v != w
    ensures LeavesAlone(jobs, s, t, v)
  {
    hide LooksSame, IsTempOf, Closed, NamesFit, FirstKept, Stepped, Acts, WorkerFits, LeavesAlone, CopyFits, Inv;
    TempsApart(may, jobs, first, s, t, w, m, v);
    PublishEffect(jobs[w], s, t, w, s.phases[w], m);
    if t.names != s.names {
      BoundLeavesAlone(may, jobs, first, s, t, w, v);
    } else {
      PhaseLeavesAlone(may, jobs, first, s, t, w, v);
    }
  }

  lemma TempsApart(may: May, jobs: Jobs, first: State, s: State, t: State, w: Worker, m: Move, v: Worker)
    requires Stepped(may, jobs, first, s, t, w, m) && v in jobs && v != w
    ensures w in jobs && w in s.phases && v in s.phases && Acts(jobs[w], s, t, w, s.phases[w], m)
    ensures IsTemp(jobs[v].temp) && !IsTemp(jobs[w].target) && !IsTemp(jobs[w].source)
    ensures jobs[v].temp != jobs[w].temp
    ensures WorkerFits(may, jobs, first, s, v) && WorkerFits(may, jobs, first, s, w) && NamesFit(may, s)
  {
    hide LooksSame, IsTempOf, Closed, NamesFit, FirstKept, WorkerFits, Acts, IsTemp;
  }

  /** Publishing changes at most what the target and the temporary name are bound to. */
  lemma PublishEffect(job: Job, s: State, t: State, w: Worker, p: Phase, m: Move)
    requires Acts(job, s, t, w, p, m) && m.Publish? && w in s.phases
    ensures t.data == s.data && t.phases == s.phases[w := t.phases[w]] && !t.phases[w].Copying?
    ensures p.Built?
    ensures t.names == s.names || (
      && job.temp in s.names && job.target in t.names && t.names[job.target] == s.names[job.temp]
      && forall n | n in t.names && n != job.target :: n in s.names && t.names[n] == s.names[n])
  {
    hide LooksSame;
  }

  lemma PhaseLeavesAlone(may: May, jobs: Jobs, first: State, s: State, t: State, w: Worker, v: Worker)
    requires w in jobs && v in jobs && v != w && w in s.phases && v in s.phases
    requires WorkerFits(may, jobs, first, s, v) && t.names == s.names && t.data == s.data
    requires w in t.phases && t.phases == s.phases[w := t.phases[w]] && !t.phases[w].Copying?
    ensures LeavesAlone(jobs, s, t, v)
  {
  }

  lemma BoundLeavesAlone(may: May, jobs: Jobs, first: State, s: State, t: State, w: Worker, v: Worker)
    requires w in jobs && v in jobs && v != w && w in s.phases && v in s.phases
    requires jobs[v].temp != jobs[w].temp && jobs[v].temp != jobs[w].target
    requires WorkerFits(may, jobs, first, s, v) && t.data == s.data
    requires w in t.phases && t.phases == s.phases[w := t.phases[w]] && !t.phases[w].Copying?
    requires jobs[w].temp in s.names && jobs[w].target in t.names && t.names[jobs[w].target] == s.names[jobs[w].temp]
    requires forall n | n in t.names && n != jobs[w].target :: n in s.names && t.names[n] == s.names[n]
    ensures LeavesAlone(jobs, s, t, v)
  {
  }

  lemma OpenLeavesAlone(may: May, jobs: Jobs, first: State, s: State, t: State, w: Worker, m: Move, v: Worker)
    requires Stepped(may, jobs, first, s, t, w, m) && m.OpenCopy? && v in jobs && v != w
    ensures LeavesAlone(jobs, s, t, v)
  {
    hide LooksSame, IsTempOf, IsTemp, Closed, FirstKept, Stepped, Acts, LeavesAlone, Inv;
    TempsApart(may, jobs, first, s, t, w, m, v);
    OpenEffect(may, jobs, first, s, t, w, m);
    OpenedLeavesAlone(may, jobs, first, s, t, w, m, v);
  }

  /** Opening the copy makes a new file under a name that was free. */
  lemma OpenEffect(may: May, jobs: Jobs, first: State, s: State, t: State, w: Worker, m: Move)
    requires w in jobs && w in s.phases && Acts(jobs[w], s, t, w, s.phases[w], m) && m.OpenCopy?
    requires WorkerFits(may, jobs, first, s, w)
    ensures jobs[w].temp !in s.names && m.made !in s.data
    ensures jobs[w].source in s.names && s.names[jobs[w].source] in s.data
    ensures t.names == s.names[jobs[w].temp := m.made] && t.data == s.data[m.made := ""]
    ensures t.phases == s.phases[w := Copying(s.names[jobs[w].source], m.made, 0)]
  {
    hide LooksSame;
  }

  lemma OpenedLeavesAlone(may: May, jobs: Jobs, first: State, s: State, t: State, w: Worker, m: Move, v: Worker)
    requires w in jobs && v in jobs && v != w && w in s.phases && v in s.phases && m.OpenCopy?
    requires jobs[v].temp != jobs[w].temp && !IsTemp(jobs[w].source) && IsTemp(jobs[v].temp)
    requires WorkerFits(may, jobs, first, s, v) && NamesFit(may, s) && m.made !in s.data
    requires jobs[w].source in s.names && s.names[jobs[w].source] in s.data
    requires t.names == s.names[jobs[w].temp := m.made] && t.data == s.data[m.made := ""]
    requires t.phases == s.phases[w := Copying(s.names[jobs[w].source], m.made, 0)]
    ensures LeavesAlone(jobs, s, t, v)
  {
    hide IsTemp, FirstKept;
  }

  lemma WriteLeavesAlone(may: May, jobs: Jobs, first: State, s: State, t: State, w: Worker, m: Move, v: Worker)
    requires Stepped(may, jobs, first, s, t, w, m) && m.WriteChunk? && v in jobs && v != w
    ensures LeavesAlone(jobs, s, t, v)
  {
    hide LooksSame, IsTempOf, Closed, NamesFit, FirstKept, IsTemp;
    assert WorkerFits(may, jobs, first, s, v) && WorkerFits(may, jobs, first, s, w);
  }

  // The worker that moves, and the names and first files.

  lemma ActorFits(may: May, jobs: Jobs, first: State, s: State, t: State, w: Worker, m: Move)
    requires Stepped(may, jobs, first, s, t, w, m) && !m.OpenCopy? && !m.WriteChunk? && !m.FinishCopy? && !m.TryLink?
    ensures WorkerFits(may, jobs, first, t, w)
  {
    hide LooksSame, IsTempOf, CopyFits, NamesFit, IsTemp, Closed, FirstKept, TempComplete;
    assert WorkerFits(may, jobs, first, s, w);
  }

  lemma LinkFits(may: May, jobs: Jobs, first: State, s: State, t: State, w: Worker, m: Move)
    requires Stepped(may, jobs, first, s, t, w, m) && m.TryLink?
    ensures WorkerFits(may, jobs, first, t, w)
  {
    hide LooksSame, IsTempOf, CopyFits, IsTemp, Closed, FirstKept;
    assert WorkerFits(may, jobs, first, s, w);
  }

  lemma FinishFits(may: May, jobs: Jobs, first: State, s: State, t: State, w: Worker, m: Move)
    requires Stepped(may, jobs, first, s, t, w, m) && m.FinishCopy?
    ensures WorkerFits(may, jobs, first, t, w)
  {
    hide LooksSame, IsTempOf, IsTemp, Closed, FirstKept, NamesFit, Private;
    assert WorkerFits(may, jobs, first, s, w);
    var p := s.phases[w];
    assert s.data[p.from][..p.done] == s.data[p.from];
  }

  lemma OpenFits(may: May, jobs: Jobs, first: State, s: State, t: State, w: Worker, m: Move)
    requires Stepped(may, jobs, first, s, t, w, m) && m.OpenCopy?
    ensures WorkerFits(may, jobs, first, t, w)
  {
    hide LooksSame, IsTempOf, IsTemp, Closed;
    assert WorkerFits(may, jobs, first, s, w);
    OpenEffect(may, jobs, first, s, t, w, m);
    forall v | v in s.phases && v != w && s.phases[v].Copying?
      ensures s.phases[v].to != m.made && s.phases[v].from != m.made
    {
      assert WorkerFits(may, jobs, first, s, v);
    }
    assert s.data[s.names[jobs[w].source]][..0] == "";
  }

  lemma WriteFits(may: May, jobs: Jobs, first: State, s: State, t: State, w: Worker, m: Move)
    requires Stepped(may, jobs, first, s, t, w, m) && m.WriteChunk?
    ensures WorkerFits(may, jobs, first, t, w)
  {
    hide LooksSame, IsTempOf, IsTemp, Closed, NamesFit;
    assert WorkerFits(may, jobs, first, s, w);
    var p := s.phases[w];
    var all := s.data[p.from];
    assert all[..p.done] + all[p.done..p.done + m.size] == all[..p.done + m.size];
  }

  lemma NamesStayFit(may: May, jobs: Jobs, first: State, s: State, t: State, w: Worker, m: Move)
    requires Stepped(may, jobs, first, s, t, w, m)
    ensures NamesFit(may, t)
  {
    hide LooksSame, IsTempOf, FirstKept;
    assert WorkerFits(may, jobs, first, s, w);
  }

  lemma FirstStaysKept(may: May, jobs: Jobs, first: State, s: State, t: State, w: Worker, m: Move)
    requires Stepped(may, jobs, first, s, t, w, m)
    ensures FirstKept(first, t)
  {
    hide LooksSame, IsTempOf, IsTemp, NamesFit, Closed;
    assert WorkerFits(may, jobs, first, s, w);
  }

  lemma OtherFits(may: May, jobs: Jobs, first: State, s: State, t: State, w: Worker, m: Move, v: Worker)
    requires Stepped(may, jobs, first, s, t, w, m) && v in jobs && v != w && v in s.phases && v in t.phases
    ensures WorkerFits(may, jobs, first, t, v)
  {
    hide Stepped, WorkerFits, LeavesAlone;
    WasFit(may, jobs, first, s, t, w, m, v);
    if m.TryLink? {
      LinkLeavesAlone(may, jobs, first, s, t, w, m, v);
    } else if m.Publish? {
      PublishLeavesAlone(may, jobs, first, s, t, w, m, v);
    } else if m.OpenCopy? {
      OpenLeavesAlone(may, jobs, first, s, t, w, m, v);
    } else if m.WriteChunk? {
      WriteLeavesAlone(may, jobs, first, s, t, w, m, v);
    } else if m.Sweep? || m.Unlink? {
      RemovalLeavesAlone(may, jobs, first, s, t, w, m, v);
    } else {
      QuietLeavesAlone(may, jobs, first, s, t, w, m, v);
    }
    AloneFits(may, jobs, first, s, t, v);
  }

  lemma WasFit(may: May, jobs: Jobs, first: State, s: State, t: State, w: Worker, m: Move, v: Worker)
    requires Stepped(may, jobs, first, s, t, w, m) && v in jobs
    ensures v in s.phases && WorkerFits(may, jobs, first, s, v)
  {
    hide WorkerFits, Closed, Next, JobsApart, NamesFit, FirstKept;
  }

  lemma SameWorkers(may: May, jobs: Jobs, first: State, s: State, t: State, w: Worker, m: Move)
    requires Stepped(may, jobs, first, s, t, w, m)
    ensures w in jobs && t.phases.Keys == jobs.Keys == s.phases.Keys
  {
    hide WorkerFits, Closed, JobsApart, NamesFit, FirstKept, LooksSame, IsTempOf;
  }

  lemma NextKeepsInv(may: May, jobs: Jobs, first: State, s: State, t: State, w: Worker, m: Move)
    requires Stepped(may, jobs, first, s, t, w, m)
    ensures Inv(may, jobs, first, t)
  {
    hide Stepped, WorkerFits, NamesFit, FirstKept;
    SameWorkers(may, jobs, first, s, t, w, m);
    NamesStayFit(may, jobs, first, s, t, w, m);
    FirstStaysKept(may, jobs, first, s, t, w, m);
    forall v | v in jobs ensures WorkerFits(may, jobs, first, t, v) {
      if v != w {
        OtherFits(may, jobs, first, s, t, w, m, v);
      } else if m.OpenCopy? {
        OpenFits(may, jobs, first, s, t, w, m);
      } else if m.WriteChunk? {
        WriteFits(may, jobs, first, s, t, w, m);
      } else if m.FinishCopy? {
        FinishFits(may, jobs, first, s, t, w, m);
      } else if m.TryLink? {
        LinkFits(may, jobs, first, s, t, w, m);
      } else {
        ActorFits(may, jobs, first, s, t, w, m);
      }
    }
  }

  lemma {:induction false} RunInv(may: May, r: Run, i: nat)
    requires IsRun(r) && i < |r.states| && Closed(may, r.jobs, r.states[0])
    ensures Inv(may, r.jobs, r.states[0], r.states[i])
  {
    hide Next, Inv, Init, Closed, JobsApart;
    if i == 0 {
      InitFits(may, r.jobs, r.states[0]);
    } else {
      RunInv(may, r, i - 1);
      NextKeepsInv(may, r.jobs, r.states[0], r.states[i - 1], r.states[i], r.workers[i - 1], r.moves[i - 1]);
    }
  }

  // ------------------------------------------------------------------ what holds over every run

  /** Whatever the names may show, as long as targets may show what their sources may, they show nothing else. */
  lemma ShowsOnlyWhatItMay(may: May, r: Run, i: nat, n: Name)
    requires IsRun(r) && i < |r.states| && Closed(may, r.jobs, r.states[0])
    requires n in r.states[i].names && !IsTemp(n)
    ensures r.states[i].names[n] in r.states[i].data && r.states[i].data[r.states[i].names[n]] in may(n)
  {
    hide IsRun, Closed, FirstKept, WorkerFits;
    RunInv(may, r, i);
  }

  ghost predicate SourcesApart(jobs: Jobs) {
    forall v, w | v in jobs && w in jobs :: jobs[v].source != jobs[w].target
  }

  /** What the name showed at first. */
  function FirstContent(first: State, n: Name): set<Content> {
    if n in first.names && first.names[n] in first.data then {first.data[first.names[n]]} else {}
  }

  /** The first content of the name, and of the sources that are imported to it. */
  ghost function WholeContents(jobs: Jobs, first: State): May {
    n => FirstContent(first, n)
         + set w, c | w in jobs && jobs[w].target == n && c in FirstContent(first, jobs[w].source) :: c
  }

  lemma WholeContentsClosed(jobs: Jobs, first: State)
    requires SourcesApart(jobs)
    ensures Closed(WholeContents(jobs, first), jobs, first)
  {
    hide IsTemp;
  }

  /**
   * At every moment of every run a target is absent, or shows its earlier content, or shows the whole
   * content of a source imported to it.
   */
  lemma TargetNeverPartial(r: Run, i: nat, n: Name)
    requires IsRun(r) && SourcesApart(r.jobs) && i < |r.states| && n in r.states[i].names && !IsTemp(n)
    ensures var first, s := r.states[0], r.states[i];
      && s.names[n] in s.data
      && var content := s.data[s.names[n]];
         || content in FirstContent(first, n)
         || exists w | w in r.jobs :: r.jobs[w].target == n && content in FirstContent(first, r.jobs[w].source)
  {
    hide IsRun, SourcesApart, Closed, IsTemp, FirstContent;
    WholeContentsClosed(r.jobs, r.states[0]);
    ShowsOnlyWhatItMay(WholeContents(r.jobs, r.states[0]), r, i, n);
  }

  /** No file that existed at first is ever written, whatever it is called and whoever imports it. */
  lemma SourcesNeverWritten(r: Run, i: nat, file: Inode)
    requires IsRun(r) && i < |r.states| && file in r.states[0].data
    ensures file in r.states[i].data && r.states[i].data[file] == r.states[0].data[file]
  {
    hide IsRun, NamesFit, WorkerFits;
    var any: May := n => r.states[0].data.Values;
    RunInv(any, r, i);
  }

  lemma StepKeepsBound(r: Run, i: nat, n: Name)
    requires IsRun(r) && i < |r.moves| && n in r.states[i].names && !IsTemp(n)
    ensures n in r.states[i + 1].names
    ensures
      r.states[i + 1].names[n] == r.states[i].names[n]
      || (&& r.workers[i] in r.jobs && r.moves[i].Publish?
          && r.jobs[r.workers[i]].target == n && r.jobs[r.workers[i]].overwrite)
  {
    hide LooksSame, Init;
    assert Next(r.jobs, r.states[i], r.states[i + 1], r.workers[i], r.moves[i]);
  }

  /** A target is replaced in one step: once it exists it is there at every later moment. */
  lemma {:induction false} TargetStays(r: Run, i: nat, j: nat, n: Name)
    requires IsRun(r) && i <= j < |r.states| && n in r.states[i].names && !IsTemp(n)
    ensures n in r.states[j].names
    decreases j - i
  {
    hide IsRun, IsTemp;
    if i < j {
      assert |r.states| == |r.moves| + 1 by { Lengths(r); }
      TargetStays(r, i, j - 1, n);
      StepKeepsBound(r, j - 1, n);
    }
  }

  lemma Lengths(r: Run)
    requires IsRun(r)
    ensures |r.states| == |r.workers| + 1 == |r.moves| + 1
  {
  }

  /** When no importer of a target may overwrite, what the target is once bound to is never replaced. */
  lemma {:induction false} NoOverwriteKeepsTarget(r: Run, i: nat, j: nat, n: Name)
    requires IsRun(r) && i <= j < |r.states| && n in r.states[i].names && !IsTemp(n)
    requires forall w | w in r.jobs && r.jobs[w].target == n :: !r.jobs[w].overwrite
    ensures n in r.states[j].names && r.states[j].names[n] == r.states[i].names[n]
    decreases j - i
  {
    hide IsRun, IsTemp;
    if i < j {
      Lengths(r);
      NoOverwriteKeepsTarget(r, i, j - 1, n);
      StepKeepsBound(r, j - 1, n);
    }
  }

  /** Right after an importer publishes, the target shows what its source may show. */
  lemma PublishedShowsSource(may: May, r: Run, i: nat)
    requires IsRun(r) && i < |r.moves| && Closed(may, r.jobs, r.states[0]) && r.moves[i].Publish?
    requires r.workers[i] in r.states[i + 1].phases
    requires var p := r.states[i + 1].phases[r.workers[i]]; (p.Finished? || p.Unlinking?) && p.outcome == Published
    ensures var t := r.states[i + 1];
      && r.workers[i] in r.jobs
      && var job := r.jobs[r.workers[i]];
      && job.target in t.names && t.names[job.target] in t.data
      && t.data[t.names[job.target]] in may(job.source)
  {
    hide LooksSame, Init, NamesFit, FirstKept, Closed, IsTemp;
    RunInv(may, r, i);
    var w := r.workers[i];
    assert Next(r.jobs, r.states[i], r.states[i + 1], w, r.moves[i]);
    assert WorkerFits(may, r.jobs, r.states[0], r.states[i], w);
  }
}
