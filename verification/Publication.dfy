/**
 Publication of staged trees as digest-named containers, by any number of publishers that
 interleave step by step and may crash between any two steps.
 */
module Publication {
  import opened Binary
  import opened CanonicalTree
  import opened Collections
  import opened ContainerNames

  type Ino = nat
  type Pid = nat

  /** A container directory: its payload, and each completion marker's content by its digest. */
  datatype Container = Container(payload: Option<Tree>, markers: map<string, string>)

  datatype Result = Published(name: string) | Failed

  /** Where a publisher stands in `publish_staging_tree`. */
  datatype Phase =
    | Idle
    | Private
    | Installed
    | Digested
    | MarkerOpen
    | Marked
    | Absent
    | Raced
    | Renamed
    | Cleaning(result: Result)
    | Quarantined(result: Result)
    | Done(result: Result)
    | Crashed

  /** A publisher's locals; `ino` and `privateName` mean something once `started`. */
  datatype Publisher = Publisher(
    phase: Phase, started: bool, ino: Ino, privateName: string, digest: string, installed: bool)

  /** The staging directory a publisher was handed. */
  datatype Staged = Staged(name: string, ino: Ino, tree: Tree)

  /** The canonical digest; `None` where hashing the tree raises. */
  type DigestFn = Tree -> Option<string>

  /** What the run starts from: the staged trees, and what was in the destination before. */
  datatype Config = Config(
    staged: map<Pid, Staged>, foreign: map<string, Ino>, foreignContainers: map<Ino, Container>,
    digest: DigestFn)

  datatype State = State(
    parent: map<string, Ino>, dest: map<string, Ino>, containers: map<Ino, Container>,
    publishers: map<Pid, Publisher>)

  lemma ContainerNameInjective(a: string, b: string)
    requires ContainerName(a) == ContainerName(b)
    ensures a == b
  {
    assert ContainerName(a)[|CONTAINER_PREFIX|..] == a;
    assert ContainerName(b)[|CONTAINER_PREFIX|..] == b;
  }

  /** The layout check made of a container found under the wanted name. */
  predicate LayoutOk(c: Container, digest: string) {
    c.payload.Some? && digest in c.markers && c.markers[digest] == digest
  }

  // ------------------------------------------------------------------ steps

  ghost predicate ValidConfig(cfg: Config) {
    && (forall n | n in cfg.foreign :: cfg.foreign[n] in cfg.foreignContainers)
    && (forall p | p in cfg.staged :: cfg.staged[p].ino !in cfg.foreignContainers)
  }

  ghost predicate Init(cfg: Config, s: State) {
    && ValidConfig(cfg)
    && s.dest == cfg.foreign && s.containers == cfg.foreignContainers
    && s.publishers.Keys == cfg.staged.Keys
    && (forall p | p in s.publishers :: s.publishers[p] == Publisher(Idle, false, 0, "", "", false))
  }

  function Set(s: State, p: Pid, pub: Publisher): State {
    s.(publishers := s.publishers[p := pub])
  }

  function Goto(s: State, p: Pid, phase: Phase): State
    requires p in s.publishers
  {
    Set(s, p, s.publishers[p].(phase := phase))
  }

  /** Creates the private directory under a fresh random name, or fails on a name already taken. */
  ghost predicate MakePrivate(cfg: Config, s: State, s': State, p: Pid)
    requires p in s.publishers && p in cfg.staged
  {
    || s' == Goto(s, p, Done(Failed))
    || exists name: string, ino: Ino ::
         && name !in s.parent && ino !in s.containers && (forall q | q in cfg.staged :: cfg.staged[q].ino != ino)
         && s' == s.(parent := s.parent[name := ino],
                     containers := s.containers[ino := Container(None, map[])],
                     publishers := s.publishers[p := Publisher(Private, true, ino, name, "", false)])
  }

  /** Checks that staging is still the bound directory, then renames it to the payload. */
  ghost predicate InstallPayload(cfg: Config, s: State, s': State, p: Pid)
    requires p in s.publishers && p in cfg.staged
  {
    var pub, staged := s.publishers[p], cfg.staged[p];
    || s' == Goto(s, p, Cleaning(Failed))
    || (&& staged.name in s.parent && s.parent[staged.name] == staged.ino
        && pub.ino in s.containers
        && s' == Goto(s, p, Installed).(
             parent := s.parent - {staged.name},
             containers := s.containers[pub.ino := s.containers[pub.ino].(payload := Some(staged.tree))]))
  }

  /** Hashes the installed payload. */
  ghost predicate HashPayload(cfg: Config, s: State, s': State, p: Pid)
    requires p in s.publishers
  {
    var pub := s.publishers[p];
    || s' == Goto(s, p, Cleaning(Failed))
    || (&& pub.ino in s.containers && s.containers[pub.ino].payload.Some?
        && cfg.digest(s.containers[pub.ino].payload.value).Some?
        && s' == Set(s, p, pub.(phase := Digested, digest := cfg.digest(s.containers[pub.ino].payload.value).value)))
  }

  ghost predicate OpenMarker(s: State, s': State, p: Pid)
    requires p in s.publishers
  {
    var pub := s.publishers[p];
    || s' == Goto(s, p, Cleaning(Failed))
    || (&& pub.ino in s.containers && pub.digest !in s.containers[pub.ino].markers
        && s' == Goto(s, p, MarkerOpen).(containers := WithMarker(s, pub, "")))
  }

  function WithMarker(s: State, pub: Publisher, content: string): map<Ino, Container>
    requires pub.ino in s.containers
  {
    var c := s.containers[pub.ino];
    s.containers[pub.ino := c.(markers := c.markers[pub.digest := content])]
  }

  /** One write of the marker: complete, or short, which is an error. */
  ghost predicate WriteMarker(s: State, s': State, p: Pid)
    requires p in s.publishers
  {
    var pub := s.publishers[p];
    && pub.ino in s.containers
    && (|| s' == Goto(s, p, Marked).(containers := WithMarker(s, pub, pub.digest))
        || exists k | 0 <= k <= |pub.digest| ::
             s' == Goto(s, p, Cleaning(Failed)).(containers := WithMarker(s, pub, pub.digest[..k])))
  }

  /**
   Looks for a container of the same name: a matching one is the result, another is a collision, and
   one that cannot be opened, or is no directory, is an error.
   */
  ghost predicate LookForExisting(s: State, s': State, p: Pid, absent: Phase)
    requires p in s.publishers
  {
    var name := ContainerName(s.publishers[p].digest);
    || s' == Goto(s, p, Cleaning(Failed))
    || (&& name in s.dest && s.dest[name] in s.containers
        && s' == Goto(s, p, Cleaning(
             if LayoutOk(s.containers[s.dest[name]], s.publishers[p].digest) then Published(name) else Failed)))
    || (name !in s.dest && s' == Goto(s, p, absent))
  }

  /** The no-replace rename: it fails if the name is taken, whoever took it. */
  ghost predicate RenameNoReplace(s: State, s': State, p: Pid)
    requires p in s.publishers
  {
    var pub := s.publishers[p];
    var name := ContainerName(pub.digest);
    || s' == Goto(s, p, Cleaning(Failed))
    || (name in s.dest && s' == Goto(s, p, Raced))
    || (&& name !in s.dest && pub.privateName in s.parent
        && s' == Set(s, p, pub.(phase := Renamed, installed := true)).(
             parent := s.parent - {pub.privateName},
             dest := s.dest[name := s.parent[pub.privateName]]))
  }

  /** Reopens the published container, if that works, and checks that it is the one built here. */
  ghost predicate VerifyPublished(s: State, s': State, p: Pid)
    requires p in s.publishers
  {
    var pub := s.publishers[p];
    var name := ContainerName(pub.digest);
    var good := && name in s.dest && s.dest[name] == pub.ino && pub.ino in s.containers
                && LayoutOk(s.containers[pub.ino], pub.digest);
    s' == Goto(s, p, Done(Failed)) || (good && s' == Goto(s, p, Done(Published(name))))
  }

  /** Moves the private directory out of the way under a fresh name, or leaves it in place. */
  ghost predicate Quarantine(s: State, s': State, p: Pid, result: Result)
    requires p in s.publishers
  {
    var pub := s.publishers[p];
    || s' == Goto(s, p, Done(result))
    || exists name: string ::
         && name !in s.parent && pub.privateName in s.parent && s.parent[pub.privateName] == pub.ino
         && s' == Goto(s, p, Quarantined(result)).(
              parent := (s.parent - {pub.privateName})[name := pub.ino])
  }

  /** Removes some of the quarantined content, or stops. */
  ghost predicate Remove(s: State, s': State, p: Pid, result: Result)
    requires p in s.publishers
  {
    || s' == Goto(s, p, Done(result))
    || (&& s.publishers[p].ino in s'.containers
        && s' == s.(containers := s.containers[s.publishers[p].ino := s'.containers[s.publishers[p].ino]]))
  }

  /** After a failed run the staging directory itself is moved away, if it is still there. */
  ghost predicate DiscardStaging(cfg: Config, s: State, s': State, p: Pid)
    requires p in cfg.staged
  {
    var staged := cfg.staged[p];
    && staged.name in s.parent && s.parent[staged.name] == staged.ino
    && exists name: string | name !in s.parent ::
         s' == s.(parent := (s.parent - {staged.name})[name := staged.ino])
  }

  ghost predicate Step(cfg: Config, s: State, s': State, p: Pid) {
    && p in s.publishers && p in cfg.staged
    && match s.publishers[p].phase
       case Idle => MakePrivate(cfg, s, s', p)
       case Private => InstallPayload(cfg, s, s', p)
       case Installed => HashPayload(cfg, s, s', p)
       case Digested => OpenMarker(s, s', p)
       case MarkerOpen => WriteMarker(s, s', p)
       case Marked => LookForExisting(s, s', p, Absent)
       case Absent => RenameNoReplace(s, s', p)
       case Raced => LookForExisting(s, s', p, Cleaning(Failed))
       case Renamed => VerifyPublished(s, s', p)
       case Cleaning(result) => Quarantine(s, s', p, result)
       case Quarantined(result) => Remove(s, s', p, result)
       case Done(result) => result == Failed && DiscardStaging(cfg, s, s', p)
       case Crashed => false
  }

  ghost predicate Crash(s: State, s': State, p: Pid) {
    p in s.publishers && !s.publishers[p].phase.Done? && s' == Goto(s, p, Crashed)
  }

  ghost predicate Next(cfg: Config, s: State, s': State) {
    exists p :: Step(cfg, s, s', p) || Crash(s, s', p)
  }

  // ------------------------------------------------------------------ the invariant

  /** The private container's content, phase by phase. */
  ghost predicate PhaseContent(cfg: Config, s: State, p: Pid)
    requires p in s.publishers && p in cfg.staged && s.publishers[p].ino in s.containers
  {
    var pub, tree := s.publishers[p], cfg.staged[p].tree;
    var c := s.containers[pub.ino];
    match pub.phase
    case Private => c == Container(None, map[])
    case Installed => c == Container(Some(tree), map[])
    case Digested => c == Container(Some(tree), map[]) && cfg.digest(tree) == Some(pub.digest)
    case MarkerOpen => c == Container(Some(tree), map[pub.digest := ""]) && cfg.digest(tree) == Some(pub.digest)
    case Marked => c == Finished(tree, pub.digest) && cfg.digest(tree) == Some(pub.digest)
    case Absent => c == Finished(tree, pub.digest) && cfg.digest(tree) == Some(pub.digest)
    case Raced => c == Finished(tree, pub.digest) && cfg.digest(tree) == Some(pub.digest)
    case _ => true
  }

  function Finished(tree: Tree, digest: string): Container {
    Container(Some(tree), map[digest := digest])
  }

  /** Phases in which the private directory still stands under its private name. */
  predicate Building(phase: Phase) {
    phase in {Private, Installed, Digested, MarkerOpen, Marked, Absent, Raced}
  }

  ghost predicate Owns(s: State, p: Pid, name: string)
    requires p in s.publishers
  {
    s.publishers[p].installed && name == ContainerName(s.publishers[p].digest)
  }

  /** Directory numbers are shared by no two publishers, nor with what was there before. */
  ghost predicate Separate(cfg: Config, s: State) {
    && (forall p | p in s.publishers && s.publishers[p].started ::
          && s.publishers[p].ino in s.containers && s.publishers[p].ino !in cfg.foreignContainers
          && forall q | q in cfg.staged :: cfg.staged[q].ino != s.publishers[p].ino)
    && (forall p, q | p in s.publishers && q in s.publishers && p != q
                      && s.publishers[p].started && s.publishers[q].started ::
          s.publishers[p].ino != s.publishers[q].ino)
  }

  ghost predicate PublisherOk(cfg: Config, s: State, p: Pid)
    requires p in s.publishers
  {
    var pub := s.publishers[p];
    && p in cfg.staged
    && (pub.phase == Idle ==> !pub.started)
    && (pub.installed || Building(pub.phase) ==> pub.started)
    && (pub.phase == Renamed ==> pub.installed)
    && (pub.installed ==> pub.phase == Renamed || pub.phase.Done? || pub.phase == Crashed)
    && (Building(pub.phase) ==>
        && pub.privateName in s.parent && s.parent[pub.privateName] == pub.ino
        && pub.ino in s.containers && PhaseContent(cfg, s, p))
    && (pub.phase.Quarantined? || pub.phase.Cleaning? ==> pub.started)
    && (pub.installed ==>
        && pub.ino in s.containers && s.containers[pub.ino] == Finished(cfg.staged[p].tree, pub.digest)
        && cfg.digest(cfg.staged[p].tree) == Some(pub.digest)
        && ContainerName(pub.digest) in s.dest && s.dest[ContainerName(pub.digest)] == pub.ino)
    && (match pub.phase
        case Cleaning(r) => ResultOk(cfg, s, p, r)
        case Quarantined(r) => ResultOk(cfg, s, p, r)
        case Done(r) => ResultOk(cfg, s, p, r)
        case _ => true)
  }

  /** A reported container is visible under the name of the publisher's own digest and is laid out right. */
  ghost predicate ResultOk(cfg: Config, s: State, p: Pid, r: Result)
    requires p in s.publishers && p in cfg.staged
  {
    r.Published? ==>
      exists d :: && cfg.digest(cfg.staged[p].tree) == Some(d) && r.name == ContainerName(d)
                  && r.name in s.dest && s.dest[r.name] in s.containers
                  && LayoutOk(s.containers[s.dest[r.name]], d)
  }

  ghost predicate DestOk(cfg: Config, s: State) {
    && (forall n | n in cfg.foreign :: n in s.dest && s.dest[n] == cfg.foreign[n])
    && (forall i | i in cfg.foreignContainers :: i in s.containers && s.containers[i] == cfg.foreignContainers[i])
    && (forall n | n in s.dest :: n in cfg.foreign || exists p | p in s.publishers :: Owns(s, p, n))
  }

  ghost predicate Inv(cfg: Config, s: State) {
    && ValidConfig(cfg) && s.publishers.Keys == cfg.staged.Keys
    && Separate(cfg, s) && DestOk(cfg, s)
    && forall p | p in s.publishers :: PublisherOk(cfg, s, p)
  }

  lemma InitInv(cfg: Config, s: State)
    requires Init(cfg, s)
    ensures Inv(cfg, s)
  {
  }

  // ------------------------------------------------------------------ one step keeps the invariant

  /** What a step of `p` leaves alone: other publishers, their directories, everything visible. */
  ghost predicate Frame(cfg: Config, s: State, s': State, p: Pid)
    requires p in s.publishers && p in cfg.staged
  {
    var pub := s.publishers[p];
    && s'.publishers.Keys == s.publishers.Keys
    && (forall q | q in s.publishers && q != p :: s'.publishers[q] == s.publishers[q])
    && (forall n | n in s.dest :: n in s'.dest && s'.dest[n] == s.dest[n])
    && (forall n | n in s'.dest && n !in s.dest :: Owns(s', p, n))
    && s.containers.Keys <= s'.containers.Keys
    && (forall i | i in s.containers && !(pub.started && i == pub.ino) :: s'.containers[i] == s.containers[i])
    && (pub.started ==> s'.publishers[p].started && s'.publishers[p].ino == pub.ino)
    && (!pub.started && s'.publishers[p].started ==>
        && s'.publishers[p].ino !in s.containers && s'.publishers[p].ino in s'.containers
        && forall q | q in cfg.staged :: cfg.staged[q].ino != s'.publishers[p].ino)
    && (pub.installed ==>
        && s'.containers == s.containers
        && s'.publishers[p].installed && s'.publishers[p].digest == pub.digest)
    && (forall k | k in s.parent && s.parent[k] != cfg.staged[p].ino && !(pub.started && s.parent[k] == pub.ino) ::
          k in s'.parent && s'.parent[k] == s.parent[k])
  }

  /** The directory behind a visible name is not one that a publisher's step may change. */
  lemma VisibleUntouched(cfg: Config, s: State, s': State, p: Pid, n: string)
    requires Inv(cfg, s) && p in s.publishers && Frame(cfg, s, s', p) && n in s.dest
    ensures n in s'.dest && s'.dest[n] == s.dest[n]
    ensures s.dest[n] in s.containers && s.dest[n] in s'.containers
    ensures s'.containers[s.dest[n]] == s.containers[s.dest[n]]
  {
    hide PhaseContent, ResultOk, LayoutOk, ContainerName;
    if n !in cfg.foreign {
      var q :| q in s.publishers && Owns(s, q, n);
      assert PublisherOk(cfg, s, q);
    }
  }

  lemma ResultKept(cfg: Config, s: State, s': State, p: Pid, q: Pid, r: Result)
    requires Inv(cfg, s) && p in s.publishers && q in s.publishers && Frame(cfg, s, s', p)
    requires ResultOk(cfg, s, q, r)
    ensures ResultOk(cfg, s', q, r)
  {
    hide Inv, Frame, LayoutOk;
    FramePublishers(cfg, s, s', p);
    if r.Published? {
      var d :| && cfg.digest(cfg.staged[q].tree) == Some(d) && r.name == ContainerName(d)
               && r.name in s.dest && s.dest[r.name] in s.containers
               && LayoutOk(s.containers[s.dest[r.name]], d);
      VisibleUntouched(cfg, s, s', p, r.name);
    }
  }

  lemma FramePublishers(cfg: Config, s: State, s': State, p: Pid)
    requires Inv(cfg, s) && p in s.publishers && Frame(cfg, s, s', p)
    ensures s'.publishers.Keys == s.publishers.Keys == cfg.staged.Keys
  {
  }

  /** A step of `p` does not disturb another publisher. */
  lemma OtherKept(cfg: Config, s: State, s': State, p: Pid, q: Pid)
    requires Inv(cfg, s) && p in s.publishers && q in s.publishers && q != p && Frame(cfg, s, s', p)
    ensures PublisherOk(cfg, s', q)
  {
    hide ResultOk, LayoutOk, ContainerName;
    assert PublisherOk(cfg, s, q);
    var pub := s.publishers[q];
    match pub.phase {
      case Cleaning(r) => ResultKept(cfg, s, s', p, q, r);
      case Quarantined(r) => ResultKept(cfg, s, s', p, q, r);
      case Done(r) => ResultKept(cfg, s, s', p, q, r);
      case _ =>
    }
  }

  lemma FrameKeepsSeparate(cfg: Config, s: State, s': State, p: Pid)
    requires Inv(cfg, s) && p in s.publishers && Frame(cfg, s, s', p)
    ensures Separate(cfg, s')
  {
    hide PublisherOk;
  }

  lemma FrameKeepsDest(cfg: Config, s: State, s': State, p: Pid)
    requires Inv(cfg, s) && p in s.publishers && Frame(cfg, s, s', p)
    ensures DestOk(cfg, s')
  {
    hide PublisherOk, ContainerName;
    forall n | n in s'.dest && n !in cfg.foreign ensures exists q | q in s'.publishers :: Owns(s', q, n) {
      if n in s.dest {
        var q :| q in s.publishers && Owns(s, q, n);
        assert Owns(s', q, n);
      } else {
        assert Owns(s', p, n);
      }
    }
  }

  lemma FrameKeepsInv(cfg: Config, s: State, s': State, p: Pid)
    requires Inv(cfg, s) && p in s.publishers && Frame(cfg, s, s', p) && PublisherOk(cfg, s', p)
    ensures Inv(cfg, s')
  {
    FrameKeepsSeparate(cfg, s, s', p);
    FrameKeepsDest(cfg, s, s', p);
    forall q | q in s'.publishers ensures PublisherOk(cfg, s', q) {
      if q != p {
        OtherKept(cfg, s, s', p, q);
      }
    }
  }

  lemma OwnDirectory(cfg: Config, s: State, p: Pid)
    requires Inv(cfg, s) && p in s.publishers
    ensures p in cfg.staged && PublisherOk(cfg, s, p)
    ensures s.publishers[p].started ==>
              && s.publishers[p].ino in s.containers
              && cfg.staged[p].ino != s.publishers[p].ino
  {
  }

  lemma MakePrivateFrames(cfg: Config, s: State, s': State, p: Pid)
    requires p in s.publishers && PublisherOk(cfg, s, p)
    requires s.publishers[p].started ==>
      s.publishers[p].ino in s.containers && cfg.staged[p].ino != s.publishers[p].ino
    requires s.publishers[p].phase == Idle && MakePrivate(cfg, s, s', p)
    ensures Frame(cfg, s, s', p)
  {
    hide ResultOk, LayoutOk, ContainerName, PhaseContent;
  }

  lemma MakePrivateStep(cfg: Config, s: State, s': State, p: Pid)
    requires Inv(cfg, s) && p in s.publishers && p in cfg.staged
    requires s.publishers[p].phase == Idle && MakePrivate(cfg, s, s', p)
    ensures Frame(cfg, s, s', p) && PublisherOk(cfg, s', p)
  {
    hide ResultOk, LayoutOk, ContainerName, Inv, Frame;
    OwnDirectory(cfg, s, p);
    MakePrivateFrames(cfg, s, s', p);
    NothingReported(cfg, s', p);
  }

  lemma InstallFrames(cfg: Config, s: State, s': State, p: Pid)
    requires p in s.publishers && PublisherOk(cfg, s, p)
    requires s.publishers[p].started ==>
      s.publishers[p].ino in s.containers && cfg.staged[p].ino != s.publishers[p].ino
    requires s.publishers[p].phase == Private && InstallPayload(cfg, s, s', p)
    ensures Frame(cfg, s, s', p)
  {
    hide ResultOk, LayoutOk, ContainerName, PhaseContent;
  }

  lemma InstallStep(cfg: Config, s: State, s': State, p: Pid)
    requires Inv(cfg, s) && p in s.publishers && p in cfg.staged
    requires s.publishers[p].phase == Private && InstallPayload(cfg, s, s', p)
    ensures Frame(cfg, s, s', p) && PublisherOk(cfg, s', p)
  {
    hide LayoutOk, ContainerName, Inv, Frame;
    OwnDirectory(cfg, s, p);
    InstallFrames(cfg, s, s', p);
  }

  lemma HashStep(cfg: Config, s: State, s': State, p: Pid)
    requires Inv(cfg, s) && p in s.publishers && p in cfg.staged
    requires s.publishers[p].phase == Installed && HashPayload(cfg, s, s', p)
    ensures Frame(cfg, s, s', p) && PublisherOk(cfg, s', p)
  {
    hide LayoutOk, ContainerName, Inv;
    OwnDirectory(cfg, s, p);
  }

  lemma OpenMarkerStep(cfg: Config, s: State, s': State, p: Pid)
    requires Inv(cfg, s) && p in s.publishers && p in cfg.staged
    requires s.publishers[p].phase == Digested && OpenMarker(s, s', p)
    ensures Frame(cfg, s, s', p) && PublisherOk(cfg, s', p)
  {
    hide LayoutOk, ContainerName, Inv;
    OwnDirectory(cfg, s, p);
  }

  lemma WriteMarkerFrames(cfg: Config, s: State, s': State, p: Pid)
    requires p in s.publishers && PublisherOk(cfg, s, p)
    requires s.publishers[p].started ==>
      s.publishers[p].ino in s.containers && cfg.staged[p].ino != s.publishers[p].ino
    requires s.publishers[p].phase == MarkerOpen && WriteMarker(s, s', p)
    ensures Frame(cfg, s, s', p)
  {
    hide ResultOk, LayoutOk, ContainerName, PhaseContent;
  }

  lemma WriteMarkerStep(cfg: Config, s: State, s': State, p: Pid)
    requires Inv(cfg, s) && p in s.publishers && p in cfg.staged
    requires s.publishers[p].phase == MarkerOpen && WriteMarker(s, s', p)
    ensures Frame(cfg, s, s', p) && PublisherOk(cfg, s', p)
  {
    hide LayoutOk, ContainerName, Inv, Frame;
    OwnDirectory(cfg, s, p);
    WriteMarkerFrames(cfg, s, s', p);
  }

  lemma LookStep(cfg: Config, s: State, s': State, p: Pid, absent: Phase)
    requires Inv(cfg, s) && p in s.publishers && p in cfg.staged
    requires s.publishers[p].phase in {Marked, Raced}
    requires absent == (if s.publishers[p].phase == Marked then Absent else Cleaning(Failed))
    requires LookForExisting(s, s', p, absent)
    ensures Frame(cfg, s, s', p) && PublisherOk(cfg, s', p)
  {
    hide LayoutOk, ContainerName, Inv;
    OwnDirectory(cfg, s, p);
  }

  lemma RenameFrames(cfg: Config, s: State, s': State, p: Pid)
    requires p in s.publishers && PublisherOk(cfg, s, p)
    requires s.publishers[p].started ==>
      s.publishers[p].ino in s.containers && cfg.staged[p].ino != s.publishers[p].ino
    requires s.publishers[p].phase == Absent && RenameNoReplace(s, s', p)
    ensures Frame(cfg, s, s', p)
  {
    hide ResultOk, LayoutOk, ContainerName, PhaseContent;
  }

  lemma RenameStep(cfg: Config, s: State, s': State, p: Pid)
    requires Inv(cfg, s) && p in s.publishers && p in cfg.staged
    requires s.publishers[p].phase == Absent && RenameNoReplace(s, s', p)
    ensures Frame(cfg, s, s', p) && PublisherOk(cfg, s', p)
  {
    hide LayoutOk, ContainerName, Inv, Frame;
    OwnDirectory(cfg, s, p);
    RenameFrames(cfg, s, s', p);
  }

  lemma VerifyStep(cfg: Config, s: State, s': State, p: Pid)
    requires Inv(cfg, s) && p in s.publishers && p in cfg.staged
    requires s.publishers[p].phase == Renamed && VerifyPublished(s, s', p)
    ensures Frame(cfg, s, s', p) && PublisherOk(cfg, s', p)
  {
    hide ContainerName, Inv;
    OwnDirectory(cfg, s, p);
  }

  lemma QuarantineFrames(cfg: Config, s: State, s': State, p: Pid, r: Result)
    requires p in s.publishers && PublisherOk(cfg, s, p)
    requires s.publishers[p].started ==>
      s.publishers[p].ino in s.containers && cfg.staged[p].ino != s.publishers[p].ino
    requires s.publishers[p].phase == Cleaning(r) && Quarantine(s, s', p, r)
    ensures Frame(cfg, s, s', p)
  {
    hide ResultOk, LayoutOk, ContainerName, PhaseContent;
  }

  lemma QuarantineStep(cfg: Config, s: State, s': State, p: Pid, r: Result)
    requires Inv(cfg, s) && p in s.publishers && p in cfg.staged
    requires s.publishers[p].phase == Cleaning(r) && Quarantine(s, s', p, r)
    ensures Frame(cfg, s, s', p) && PublisherOk(cfg, s', p)
  {
    hide ResultOk, LayoutOk, ContainerName, Inv, Frame;
    OwnDirectory(cfg, s, p);
    QuarantineFrames(cfg, s, s', p, r);
    ResultKept(cfg, s, s', p, p, r);
  }

  lemma RemoveFrames(cfg: Config, s: State, s': State, p: Pid, r: Result)
    requires p in s.publishers && PublisherOk(cfg, s, p)
    requires s.publishers[p].started ==>
      s.publishers[p].ino in s.containers && cfg.staged[p].ino != s.publishers[p].ino
    requires s.publishers[p].phase == Quarantined(r) && Remove(s, s', p, r)
    ensures Frame(cfg, s, s', p)
  {
    hide ResultOk, LayoutOk, ContainerName, PhaseContent;
  }

  lemma RemoveStep(cfg: Config, s: State, s': State, p: Pid, r: Result)
    requires Inv(cfg, s) && p in s.publishers && p in cfg.staged
    requires s.publishers[p].phase == Quarantined(r) && Remove(s, s', p, r)
    ensures Frame(cfg, s, s', p) && PublisherOk(cfg, s', p)
  {
    hide ResultOk, LayoutOk, ContainerName, Inv, Frame;
    OwnDirectory(cfg, s, p);
    RemoveFrames(cfg, s, s', p, r);
    ResultKept(cfg, s, s', p, p, r);
  }

  lemma DiscardStep(cfg: Config, s: State, s': State, p: Pid)
    requires Inv(cfg, s) && p in s.publishers && p in cfg.staged
    requires s.publishers[p].phase == Done(Failed) && DiscardStaging(cfg, s, s', p)
    ensures Frame(cfg, s, s', p) && PublisherOk(cfg, s', p)
  {
    hide ResultOk, LayoutOk, ContainerName, Inv;
    OwnDirectory(cfg, s, p);
    assert ResultOk(cfg, s', p, Failed) by { NothingReported(cfg, s', p); }
  }

  lemma CrashStep(cfg: Config, s: State, s': State, p: Pid)
    requires Inv(cfg, s) && p in s.publishers && p in cfg.staged
    requires Crash(s, s', p)
    ensures Frame(cfg, s, s', p) && PublisherOk(cfg, s', p)
  {
    hide ResultOk, LayoutOk, ContainerName, Inv;
    OwnDirectory(cfg, s, p);
  }

  lemma NothingReported(cfg: Config, s: State, p: Pid)
    requires p in s.publishers && p in cfg.staged
    ensures ResultOk(cfg, s, p, Failed)
  {
  }

  lemma StepFrames(cfg: Config, s: State, s': State, p: Pid)
    requires Inv(cfg, s) && (Step(cfg, s, s', p) || Crash(s, s', p))
    ensures p in s.publishers && p in cfg.staged && Frame(cfg, s, s', p) && PublisherOk(cfg, s', p)
  {
    hide Inv, Frame, PublisherOk, MakePrivate, InstallPayload, HashPayload, OpenMarker, WriteMarker,
         LookForExisting, RenameNoReplace, VerifyPublished, Quarantine, Remove, DiscardStaging, Crash;
    if Crash(s, s', p) {
      CrashNeeds(s, s', p);
      OwnDirectory(cfg, s, p);
      CrashStep(cfg, s, s', p);
    } else {
      match s.publishers[p].phase {
        case Idle => MakePrivateStep(cfg, s, s', p);
        case Private => InstallStep(cfg, s, s', p);
        case Installed => HashStep(cfg, s, s', p);
        case Digested => OpenMarkerStep(cfg, s, s', p);
        case MarkerOpen => WriteMarkerStep(cfg, s, s', p);
        case Marked => LookStep(cfg, s, s', p, Absent);
        case Absent => RenameStep(cfg, s, s', p);
        case Raced => LookStep(cfg, s, s', p, Cleaning(Failed));
        case Renamed => VerifyStep(cfg, s, s', p);
        case Cleaning(r) => QuarantineStep(cfg, s, s', p, r);
        case Quarantined(r) => RemoveStep(cfg, s, s', p, r);
        case Done(r) => DiscardStep(cfg, s, s', p);
      }
    }
  }

  lemma CrashNeeds(s: State, s': State, p: Pid)
    requires Crash(s, s', p)
    ensures p in s.publishers
  {
  }

  /** Every step by anyone keeps the invariant and leaves everything visible as it was. */
  lemma NextKeeps(cfg: Config, s: State, s': State)
    requires Inv(cfg, s) && Next(cfg, s, s')
    ensures Inv(cfg, s')
    ensures forall n | n in s.dest ::
              && n in s'.dest && s'.dest[n] == s.dest[n]
              && s.dest[n] in s.containers && s.dest[n] in s'.containers
              && s'.containers[s.dest[n]] == s.containers[s.dest[n]]
  {
    hide Inv, Frame, PublisherOk, Step, Crash;
    var p :| Step(cfg, s, s', p) || Crash(s, s', p);
    StepFrames(cfg, s, s', p);
    FrameKeepsInv(cfg, s, s', p);
    forall n | n in s.dest
      ensures && n in s'.dest && s'.dest[n] == s.dest[n]
              && s.dest[n] in s.containers && s.dest[n] in s'.containers
              && s'.containers[s.dest[n]] == s.containers[s.dest[n]]
    {
      VisibleUntouched(cfg, s, s', p, n);
    }
  }

  // ------------------------------------------------------------------ whole runs

  /** A run of any length: publishers step or crash in any order. */
  ghost predicate Run(cfg: Config, states: seq<State>) {
    && states != [] && Init(cfg, states[0])
    && forall i | 0 <= i < |states| - 1 :: Next(cfg, states[i], states[i + 1])
  }

  lemma {:induction false} RunInv(cfg: Config, states: seq<State>, i: nat)
    requires Run(cfg, states) && i < |states|
    ensures Inv(cfg, states[i])
  {
    hide Inv, Init, Next;
    if i == 0 {
      InitInv(cfg, states[0]);
    } else {
      RunInv(cfg, states, i - 1);
      NextKeeps(cfg, states[i - 1], states[i - 1 + 1]);
    }
  }

  /**
   At every moment every container visible in the destination, other than those that were there
   before, is complete: it has its payload, its marker, and the digest its name states.
   */
  lemma VisibleComplete(cfg: Config, states: seq<State>, i: nat, n: string)
    requires Run(cfg, states) && i < |states| && n in states[i].dest && n !in cfg.foreign
    ensures states[i].dest[n] in states[i].containers
    ensures var c := states[i].containers[states[i].dest[n]];
      exists d :: && n == ContainerName(d) && c.payload.Some? && d in c.markers && c.markers[d] == d
                  && cfg.digest(c.payload.value) == Some(d)
  {
    hide Run, Inv;
    RunInv(cfg, states, i);
    var p := Installer(cfg, states[i], n);
  }

  /** The publisher whose container stands under a name. */
  lemma Installer(cfg: Config, s: State, n: string) returns (p: Pid)
    requires Inv(cfg, s) && n in s.dest && n !in cfg.foreign
    ensures p in s.publishers && p in cfg.staged && s.publishers[p].installed
    ensures n == ContainerName(s.publishers[p].digest)
    ensures s.dest[n] in s.containers
    ensures s.containers[s.dest[n]] == Finished(cfg.staged[p].tree, s.publishers[p].digest)
    ensures cfg.digest(cfg.staged[p].tree) == Some(s.publishers[p].digest)
  {
    hide PhaseContent, ResultOk, LayoutOk, ContainerName;
    p :| p in s.publishers && Owns(s, p, n);
    assert PublisherOk(cfg, s, p);
  }

  /** Once installed, a container is never replaced, altered or removed. */
  lemma {:induction false} NeverReplaced(cfg: Config, states: seq<State>, i: nat, j: nat, n: string)
    requires Run(cfg, states) && i <= j < |states| && n in states[i].dest
    ensures n in states[j].dest && states[j].dest[n] == states[i].dest[n]
    ensures states[i].dest[n] in states[i].containers && states[i].dest[n] in states[j].containers
    ensures states[j].containers[states[i].dest[n]] == states[i].containers[states[i].dest[n]]
    decreases j - i
  {
    hide Inv, Init, Next;
    if i < j {
      RunInv(cfg, states, i);
      NextKeeps(cfg, states[i], states[i + 1]);
      NeverReplaced(cfg, states, i + 1, j, n);
    } else {
      RunInv(cfg, states, i);
      VisibleHasContainer(cfg, states[i], n);
    }
  }

  lemma VisibleHasContainer(cfg: Config, s: State, n: string)
    requires Inv(cfg, s) && n in s.dest
    ensures s.dest[n] in s.containers
  {
    hide PhaseContent, ResultOk, LayoutOk, ContainerName;
    if n !in cfg.foreign {
      var p := Installer(cfg, s, n);
    }
  }

  ghost predicate Returned(s: State, p: Pid, n: string) {
    p in s.publishers && s.publishers[p].phase == Done(Published(n))
  }

  /** A publisher that returns a path staged a tree of that digest, and the container is there. */
  lemma ReturnedIsVisible(cfg: Config, states: seq<State>, i: nat, p: Pid, n: string) returns (d: string)
    requires Run(cfg, states) && i < |states| && Returned(states[i], p, n)
    ensures p in cfg.staged && cfg.digest(cfg.staged[p].tree) == Some(d) && n == ContainerName(d)
    ensures n in states[i].dest && states[i].dest[n] in states[i].containers
    ensures var c := states[i].containers[states[i].dest[n]];
      c.payload.Some? && d in c.markers && c.markers[d] == d
  {
    hide Run, Inv;
    RunInv(cfg, states, i);
    OwnDirectory(cfg, states[i], p);
    d :| && cfg.digest(cfg.staged[p].tree) == Some(d) && n == ContainerName(d)
         && n in states[i].dest && states[i].dest[n] in states[i].containers
         && LayoutOk(states[i].containers[states[i].dest[n]], d);
  }

  /** No two publishers ever install a container of the same name. */
  lemma OneInstaller(cfg: Config, states: seq<State>, i: nat, p: Pid, q: Pid)
    requires Run(cfg, states) && i < |states| && p in states[i].publishers && q in states[i].publishers
    requires states[i].publishers[p].installed && states[i].publishers[q].installed
    requires states[i].publishers[p].digest == states[i].publishers[q].digest
    ensures p == q
  {
    hide Run, PhaseContent, ResultOk, LayoutOk, ContainerName;
    RunInv(cfg, states, i);
    OwnDirectory(cfg, states[i], p);
    OwnDirectory(cfg, states[i], q);
  }

  /** When a publisher is handed a container not there before the run, exactly one publisher installed it. */
  lemma ExactlyOneInstaller(cfg: Config, states: seq<State>, i: nat, p: Pid, n: string) returns (q: Pid)
    requires Run(cfg, states) && i < |states| && Returned(states[i], p, n) && n !in cfg.foreign
    ensures p in cfg.staged && q in states[i].publishers && states[i].publishers[q].installed
    ensures cfg.digest(cfg.staged[p].tree) == Some(states[i].publishers[q].digest)
    ensures forall r | r in states[i].publishers && states[i].publishers[r].installed
      && states[i].publishers[r].digest == states[i].publishers[q].digest :: r == q
  {
    hide Run, Inv, LayoutOk, Returned, ContainerName;
    var d := ReturnedIsVisible(cfg, states, i, p, n);
    RunInv(cfg, states, i);
    q := Installer(cfg, states[i], n);
    ContainerNameInjective(d, states[i].publishers[q].digest);
    forall r | r in states[i].publishers && states[i].publishers[r].installed
      && states[i].publishers[r].digest == states[i].publishers[q].digest ensures r == q
    {
      OneInstaller(cfg, states, i, r, q);
    }
  }

  /** The digest tells apart exactly the trees that differ. */
  ghost predicate Faithful(cfg: Config) {
    forall t, t' :: cfg.digest(t).Some? && cfg.digest(t) == cfg.digest(t') ==> SameTree(t, t')
  }

  /**
   With a collision-free digest, the container a publisher is handed holds its own tree, whoever
   installed it, unless the name was already taken before the run.
   */
  lemma ReturnedHoldsOwnTree(cfg: Config, states: seq<State>, i: nat, p: Pid, n: string)
    requires Run(cfg, states) && i < |states| && Returned(states[i], p, n) && n !in cfg.foreign
    requires Faithful(cfg)
    ensures p in cfg.staged && n in states[i].dest && states[i].dest[n] in states[i].containers
    ensures var c := states[i].containers[states[i].dest[n]];
            c.payload.Some? && SameTree(cfg.staged[p].tree, c.payload.value)
  {
    hide Run, LayoutOk, Inv, SameTree;
    var d := ReturnedIsVisible(cfg, states, i, p, n);
    RunInv(cfg, states, i);
    var q := Installer(cfg, states[i], n);
    ContainerNameInjective(d, states[i].publishers[q].digest);
  }

  /** A name taken before the run keeps its container, of which only the layout is ever checked. */
  lemma ForeignKept(cfg: Config, states: seq<State>, i: nat, n: string)
    requires Run(cfg, states) && i < |states| && n in cfg.foreign
    ensures cfg.foreign[n] in cfg.foreignContainers && n in states[i].dest && states[i].dest[n] == cfg.foreign[n]
    ensures cfg.foreign[n] in states[i].containers
    ensures states[i].containers[cfg.foreign[n]] == cfg.foreignContainers[cfg.foreign[n]]
  {
    hide Run, PublisherOk;
    RunInv(cfg, states, i);
  }

  /**
   Exactly when the returned container holds the publisher's own tree: unless a container of that
   name was there before the run and holds something else.
   */
  lemma ReturnedHoldsOwnTreeIff(cfg: Config, states: seq<State>, i: nat, p: Pid, n: string)
    requires Run(cfg, states) && i < |states| && Returned(states[i], p, n) && Faithful(cfg)
    requires n in cfg.foreign ==> cfg.foreign[n] in cfg.foreignContainers
    ensures p in cfg.staged && n in states[i].dest && states[i].dest[n] in states[i].containers
    ensures var c := states[i].containers[states[i].dest[n]];
            && c.payload.Some?
            && (SameTree(cfg.staged[p].tree, c.payload.value) <==>
                n !in cfg.foreign
                || (&& cfg.foreignContainers[cfg.foreign[n]].payload.Some?
                    && SameTree(cfg.staged[p].tree, cfg.foreignContainers[cfg.foreign[n]].payload.value)))
  {
    hide Run, Inv, SameTree, Faithful;
    var d := ReturnedIsVisible(cfg, states, i, p, n);
    if n in cfg.foreign {
      ForeignKept(cfg, states, i, n);
    } else {
      ReturnedHoldsOwnTree(cfg, states, i, p, n);
    }
  }

  /** The digest is a hash of the canonical stream. */
  ghost predicate HashesStreams(cfg: Config, utf8: Encoder, hash: bytes -> string) {
    forall t | cfg.digest(t).Some? ::
      && WellFormed(t) && Hashable(t, utf8)
      && exists s :: StreamOf(t, s, utf8) && cfg.digest(t).value == hash(s)
  }

  /** A collision-free hash of the canonical stream tells trees apart. */
  lemma CollisionFreeIsFaithful(cfg: Config, utf8: Encoder, hash: bytes -> string)
    requires HashesStreams(cfg, utf8, hash) && Injective(utf8)
    requires forall a, b | hash(a) == hash(b) :: a == b
    ensures Faithful(cfg)
  {
    hide WellFormed, Hashable, StreamOf, SameTree, Injective;
    forall t, t' | cfg.digest(t).Some? && cfg.digest(t) == cfg.digest(t') ensures SameTree(t, t') {
      var s :| StreamOf(t, s, utf8) && cfg.digest(t).value == hash(s);
      var s' :| StreamOf(t', s', utf8) && cfg.digest(t').value == hash(s');
      StreamInjective(t, t', s, utf8);
    }
  }

  // ------------------------------------------------------------------ equal trees

  /** The same paths, kinds and contents give the same digest, however the tree was put together. */
  lemma SameTreeSameDigest(cfg: Config, utf8: Encoder, hash: bytes -> string, t: Tree, t': Tree)
    requires HashesStreams(cfg, utf8, hash) && SameTree(t, t') && cfg.digest(t).Some? && cfg.digest(t').Some?
    ensures cfg.digest(t) == cfg.digest(t')
  {
    hide WellFormed, Hashable, StreamOf, SameTree;
    var s :| StreamOf(t, s, utf8) && cfg.digest(t).value == hash(s);
    var s' :| StreamOf(t', s', utf8) && cfg.digest(t').value == hash(s');
    StreamUnique(t, s, t', s', utf8);
  }

  /** Publishers of equal trees that return at all return the same path. */
  lemma EqualTreesSamePath(
    cfg: Config, utf8: Encoder, hash: bytes -> string, states: seq<State>, i: nat, j: nat, p: Pid, q: Pid,
    m: string, n: string)
    requires HashesStreams(cfg, utf8, hash) && Run(cfg, states) && i < |states| && j < |states|
    requires Returned(states[i], p, m) && Returned(states[j], q, n)
    requires p in cfg.staged && q in cfg.staged && SameTree(cfg.staged[p].tree, cfg.staged[q].tree)
    ensures m == n
  {
    hide Run, LayoutOk, ContainerName, SameTree, HashesStreams, Returned;
    var d := ReturnedIsVisible(cfg, states, i, p, m);
    var e := ReturnedIsVisible(cfg, states, j, q, n);
    SameTreeSameDigest(cfg, utf8, hash, cfg.staged[p].tree, cfg.staged[q].tree);
  }
}
