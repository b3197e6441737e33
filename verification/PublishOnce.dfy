/** One publisher by itself: `publish_staging_tree` from end to end, as a sequence of the steps of `Publication`. */
module PublishOnce {
  import opened CanonicalTree
  import opened Collections
  import opened ContainerNames
  import opened Publication

  /** The names and numbers drawn, and which calls the file system lets through. */
  datatype Answers = Answers(
    privateName: string, ino: Ino, quarantineName: string,
    makes: bool, installs: bool, hashes: bool, opensMarker: bool, markerBytes: nat, looks: bool, renames: bool,
    reopens: bool, quarantines: bool)

  // ------------------------------------------------------------------ traces

  /** The states from `first` to `now` that the steps of publisher 0 go through. */
  ghost predicate Traces(cfg: Config, first: State, run: seq<State>, now: State) {
    && run != [] && run[0] == first && run[|run| - 1] == now
    && forall i | 0 <= i < |run| - 1 :: Step(cfg, run[i], run[i + 1], 0)
  }

  lemma Moved(cfg: Config, first: State, run: seq<State>, s: State, t: State)
    requires Traces(cfg, first, run, s) && Step(cfg, s, t, 0)
    ensures Traces(cfg, first, run + [t], t)
  {
    hide Step;
  }

  lemma Started(cfg: Config, first: State)
    ensures Traces(cfg, first, [first], first)
  {
  }

  ghost function Alone(
    parent: map<string, Ino>, dest: map<string, Ino>, containers: map<Ino, Container>, pub: Publisher): State
  {
    State(parent, dest, containers, map[0 := pub])
  }

  // ------------------------------------------------------------------ what one call achieves

  /** The digest found, if everything up to and including the completion marker works. */
  ghost function BuiltDigest(cfg: Config, parent: map<string, Ino>, a: Answers): Option<string>
    requires 0 in cfg.staged
  {
    var staged := cfg.staged[0];
    if && a.makes && a.privateName !in parent
       && a.installs && staged.name in parent && parent[staged.name] == staged.ino
       && a.hashes && cfg.digest(staged.tree).Some?
       && a.opensMarker && a.markerBytes >= |cfg.digest(staged.tree).value|
    then cfg.digest(staged.tree)
    else None
  }

  ghost function ExpectedResult(
    cfg: Config, parent: map<string, Ino>, dest: map<string, Ino>, containers: map<Ino, Container>, a: Answers): Result
    requires 0 in cfg.staged
  {
    var d := BuiltDigest(cfg, parent, a);
    if d.None? || !a.looks then Failed
    else
      var name := ContainerName(d.value);
      if name in dest then
        if dest[name] in containers && LayoutOk(containers[dest[name]], d.value) then Published(name) else Failed
      else if a.renames && a.reopens then Published(name) else Failed
  }

  /** The name under which a container appears in the destination, if one does. */
  ghost function Appears(cfg: Config, parent: map<string, Ino>, dest: map<string, Ino>, a: Answers): Option<string>
    requires 0 in cfg.staged
  {
    var d := BuiltDigest(cfg, parent, a);
    if d.Some? && a.looks && a.renames && ContainerName(d.value) !in dest then Some(ContainerName(d.value)) else None
  }

  /** A container with a payload, and a marker of the digest's name that reads as the digest. */
  ghost predicate HoldsMarked(containers: map<Ino, Container>, ino: Ino, digest: string) {
    && ino in containers && containers[ino].payload.Some?
    && digest in containers[ino].markers && containers[ino].markers[digest] == digest
  }

  /** What is under the name decides the result: it is handed back exactly if it has payload and marker. */
  lemma FoundDecides(
    cfg: Config, parent: map<string, Ino>, dest: map<string, Ino>, containers: map<Ino, Container>, a: Answers)
    requires 0 in cfg.staged
    ensures forall d | BuiltDigest(cfg, parent, a) == Some(d) && a.looks && ContainerName(d) in dest ::
      ExpectedResult(cfg, parent, dest, containers, a) ==
        if HoldsMarked(containers, dest[ContainerName(d)], d) then Published(ContainerName(d)) else Failed
  {
    hide BuiltDigest, ContainerName;
  }

  /** Only reopening the renamed container fails. */
  ghost predicate OnlyReopenFails(cfg: Config, parent: map<string, Ino>, dest: map<string, Ino>, a: Answers)
    requires 0 in cfg.staged
  {
    var d := BuiltDigest(cfg, parent, a);
    d.Some? && a.looks && ContainerName(d.value) !in dest && a.renames && !a.reopens
  }

  /** Exactly then a call fails after which the container is there all the same. */
  lemma FailedYetThereIff(
    cfg: Config, parent: map<string, Ino>, dest: map<string, Ino>, containers: map<Ino, Container>, a: Answers)
    requires 0 in cfg.staged
    ensures OnlyReopenFails(cfg, parent, dest, a) <==>
      ExpectedResult(cfg, parent, dest, containers, a) == Failed && Appears(cfg, parent, dest, a).Some?
    ensures Appears(cfg, parent, dest, a).Some? ==> Appears(cfg, parent, dest, a).value !in dest
  {
    hide BuiltDigest, ContainerName, LayoutOk;
  }

  ghost predicate OthersKept(before: map<Ino, Container>, after: map<Ino, Container>, ino: Ino) {
    forall i | i != ino :: (i in before <==> i in after) && (i in before ==> after[i] == before[i])
  }

  class ImportDirectory {
    var parent: map<string, Ino>
    var dest: map<string, Ino>
    var containers: map<Ino, Container>

    constructor (parent: map<string, Ino>, dest: map<string, Ino>, containers: map<Ino, Container>)
      ensures this.parent == parent && this.dest == dest && this.containers == containers
    {
      this.parent, this.dest, this.containers := parent, dest, containers;
    }

    /** Moves the private directory out of the way and empties it, as far as that works. */
    method CleanUp(cfg: Config, a: Answers, pub: Publisher, result: Result, ghost first: State, ghost run: seq<State>)
      returns (ghost out: seq<State>)
      requires 0 in cfg.staged && pub.ino in containers && pub.phase == Cleaning(result)
      requires Traces(cfg, first, run, Alone(parent, dest, containers, pub))
      modifies this`parent, this`containers
      ensures OthersKept(old(containers), containers, pub.ino)
      ensures Traces(cfg, first, out, Alone(parent, dest, containers, pub.(phase := Done(result))))
    {
      hide *;
      out := run;
      ghost var p := pub;
      OneChanged(containers, containers, pub.ino);
      var mine := pub.privateName in parent && parent[pub.privateName] == pub.ino;
      if a.quarantines && a.quarantineName !in parent && mine {
        out := QuarantineTo(cfg, first, out, parent, dest, containers, p, a.quarantineName, result);
        parent := (parent - {pub.privateName})[a.quarantineName := pub.ino];
        p := p.(phase := Quarantined(result));
        out := RemoveTo(cfg, first, out, parent, dest, containers, p, Container(None, map[]), result);
        containers := containers[pub.ino := Container(None, map[])];
        OneChanged(old(containers), containers, pub.ino);
      }
      out := EndTo(cfg, first, out, parent, dest, containers, p, result);
      assert p.(phase := Done(result)) == pub.(phase := Done(result));
    }

    /** Fills the private container: payload, digest, completion marker. */
    method Fill(cfg: Config, a: Answers, before: Publisher, ghost first: State, ghost run: seq<State>)
      returns (ok: bool, pub: Publisher, ghost out: seq<State>)
      requires 0 in cfg.staged && before.ino in containers && containers[before.ino] == Container(None, map[])
      requires before.phase == Private && Traces(cfg, first, run, Alone(parent, dest, containers, before))
      modifies this`parent, this`containers
      ensures OthersKept(old(containers), containers, before.ino) && before.ino in containers
      ensures ok <==>
        && a.installs && cfg.staged[0].name in old(parent) && old(parent)[cfg.staged[0].name] == cfg.staged[0].ino
        && a.hashes && cfg.digest(cfg.staged[0].tree).Some?
        && a.opensMarker && a.markerBytes >= |cfg.digest(cfg.staged[0].tree).value|
      ensures pub == before.(phase := pub.phase, digest := pub.digest)
      ensures ok ==>
        && cfg.digest(cfg.staged[0].tree) == Some(pub.digest) && parent == old(parent) - {cfg.staged[0].name}
        && containers[before.ino] == Container(Some(cfg.staged[0].tree), map[pub.digest := pub.digest])
      ensures pub.phase == if ok then Marked else Cleaning(Failed)
      ensures Traces(cfg, first, out, Alone(parent, dest, containers, pub))
    {
      hide *;
      out, pub := run, before;
      OneChanged(containers, containers, before.ino);
      var staged := cfg.staged[0];
      if !a.installs || staged.name !in parent || parent[staged.name] != staged.ino {
        out := FailTo(cfg, first, out, parent, dest, containers, pub);
        return false, pub.(phase := Cleaning(Failed)), out;
      }
      out := InstallTo(cfg, first, out, parent, dest, containers, pub);
      parent := parent - {staged.name};
      containers := containers[before.ino := Container(Some(staged.tree), map[])];
      OneChanged(old(containers), containers, before.ino);
      pub := pub.(phase := Installed);
      var digest := cfg.digest(staged.tree);
      if !a.hashes || digest.None? {
        out := FailTo(cfg, first, out, parent, dest, containers, pub);
        return false, pub.(phase := Cleaning(Failed)), out;
      }
      out := HashTo(cfg, first, out, parent, dest, containers, pub);
      pub := pub.(phase := Digested, digest := digest.value);
      ghost var filled := containers;
      ok, pub, out := WriteMarkerFile(cfg, a, pub, first, out);
      KeptTwice(old(containers), filled, containers, before.ino);
    }

    /** Creates the completion marker and writes the digest to it, in one write that may be short. */
    method WriteMarkerFile(cfg: Config, a: Answers, before: Publisher, ghost first: State, ghost run: seq<State>)
      returns (ok: bool, pub: Publisher, ghost out: seq<State>)
      requires 0 in cfg.staged && before.ino in containers && before.phase == Digested
      requires containers[before.ino].markers == map[]
      requires Traces(cfg, first, run, Alone(parent, dest, containers, before))
      modifies this`containers
      ensures OthersKept(old(containers), containers, before.ino) && before.ino in containers
      ensures ok <==> a.opensMarker && a.markerBytes >= |before.digest|
      ensures ok ==>
        containers[before.ino] == old(containers)[before.ino].(markers := map[before.digest := before.digest])
      ensures pub == before.(phase := if ok then Marked else Cleaning(Failed))
      ensures Traces(cfg, first, out, Alone(parent, dest, containers, pub))
    {
      hide *;
      out, pub := run, before;
      OneChanged(containers, containers, before.ino);
      if !a.opensMarker {
        out := FailTo(cfg, first, out, parent, dest, containers, pub);
        return false, pub.(phase := Cleaning(Failed)), out;
      }
      var c := containers[before.ino];
      out := OpenTo(cfg, first, out, parent, dest, containers, pub);
      containers := containers[before.ino := c.(markers := map[before.digest := ""])];
      pub := pub.(phase := MarkerOpen);
      ok := a.markerBytes >= |before.digest|;
      var written := if ok then before.digest else before.digest[..a.markerBytes];
      out := WriteTo(cfg, first, out, parent, dest, containers, pub, written);
      containers := containers[before.ino := c.(markers := map[before.digest := written])];
      OneChanged(old(containers), containers, before.ino);
      pub := pub.(phase := if ok then Marked else Cleaning(Failed));
    }

    /** Looks for a container of the same name, and renames into place if there is none. */
    method Install(cfg: Config, a: Answers, before: Publisher, ghost first: State, ghost run: seq<State>)
      returns (pub: Publisher, ghost out: seq<State>)
      requires 0 in cfg.staged && before.phase == Marked && before.ino in containers
      requires LayoutOk(containers[before.ino], before.digest)
      requires before.privateName in parent && parent[before.privateName] == before.ino
      requires Traces(cfg, first, run, Alone(parent, dest, containers, before))
      modifies this`parent, this`dest
      ensures var name := ContainerName(before.digest);
        if !a.looks then dest == old(dest) && pub == before.(phase := Cleaning(Failed))
        else if name in old(dest) then
          && dest == old(dest)
          && pub == before.(phase := Cleaning(
               if old(dest)[name] in containers && LayoutOk(containers[old(dest)[name]], before.digest)
               then Published(name) else Failed))
        else if a.renames then
          && dest == old(dest)[name := before.ino]
          && pub == before.(phase := Done(if a.reopens then Published(name) else Failed), installed := true)
        else dest == old(dest) && pub == before.(phase := Cleaning(Failed))
      ensures Traces(cfg, first, out, Alone(parent, dest, containers, pub))
    {
      hide *;
      out, pub := run, before;
      var name := ContainerName(before.digest);
      if !a.looks || (name in dest && dest[name] !in containers) {
        out := FailTo(cfg, first, out, parent, dest, containers, pub);
        return pub.(phase := Cleaning(Failed)), out;
      }
      out := LookTo(cfg, first, out, parent, dest, containers, pub);
      if name in dest {
        var good := LayoutOk(containers[dest[name]], before.digest);
        return pub.(phase := Cleaning(if good then Published(name) else Failed)), out;
      }
      pub := pub.(phase := Absent);
      if !a.renames {
        out := FailTo(cfg, first, out, parent, dest, containers, pub);
        return pub.(phase := Cleaning(Failed)), out;
      }
      out := RenameTo(cfg, first, out, parent, dest, containers, pub);
      parent, dest := parent - {pub.privateName}, dest[name := pub.ino];
      pub := pub.(phase := Renamed, installed := true);
      out := VerifyTo(cfg, first, out, parent, dest, containers, pub, a.reopens);
      pub := pub.(phase := Done(if a.reopens then Published(name) else Failed));
    }

    /**
     * One publication with no other at work. The result follows from what was there and what the file
     * system lets through; the destination gains at most one container, complete when it appears. When
     * only reopening it fails, the call fails although the container is there to stay.
     */
    method PublishStagingTree(cfg: Config, a: Answers)
      returns (result: Result, ghost pub: Publisher, ghost run: seq<State>)
      requires cfg.staged.Keys == {0} && a.ino !in containers && a.ino != cfg.staged[0].ino
      requires forall n | n in dest :: dest[n] != a.ino
      modifies this
      ensures result == ExpectedResult(cfg, old(parent), old(dest), old(containers), a)
      ensures OthersKept(old(containers), containers, a.ino)
      ensures match Appears(cfg, old(parent), old(dest), a)
        case None => dest == old(dest)
        case Some(name) =>
          && dest == old(dest)[name := a.ino] && a.ino in containers
          && var d := BuiltDigest(cfg, old(parent), a).value;
             containers[a.ino] == Container(Some(cfg.staged[0].tree), map[d := d])
      ensures forall d | BuiltDigest(cfg, old(parent), a) == Some(d) && a.looks && ContainerName(d) in old(dest) ::
        result == if HoldsMarked(old(containers), old(dest)[ContainerName(d)], d) then Published(ContainerName(d))
                  else Failed
      ensures result == Failed && dest != old(dest) <==> OnlyReopenFails(cfg, old(parent), old(dest), a)
      ensures pub.phase == Done(result)
      ensures Traces(cfg, Alone(old(parent), old(dest), old(containers), Publisher(Idle, false, 0, "", "", false)), run,
        Alone(parent, dest, containers, pub))
    {
      hide Traces, Step, Alone, LayoutOk, OthersKept, ContainerName, BuiltDigest, ExpectedResult, Appears,
        OnlyReopenFails, HoldsMarked;
      FailedYetThereIff(cfg, parent, dest, containers, a);
      FoundDecides(cfg, parent, dest, containers, a);
      var p := Publisher(Idle, false, 0, "", "", false);
      ghost var first := Alone(parent, dest, containers, p);
      Started(cfg, first);
      run := [first];
      if !a.makes || a.privateName in parent {
        run := RefuseTo(cfg, first, run, parent, dest, containers, p);
        NoneChanged(containers, a.ino);
        NotMade(cfg, parent, dest, containers, a);
        return Failed, p.(phase := Done(Failed)), run;
      }
      run := MakeTo(cfg, first, run, parent, dest, containers, p, a.privateName, a.ino);
      parent := parent[a.privateName := a.ino];
      containers := containers[a.ino := Container(None, map[])];
      OneChanged(old(containers), containers, a.ino);
      ghost var made := containers;
      p := Publisher(Private, true, a.ino, a.privateName, "", false);
      var ok;
      ok, p, run := Fill(cfg, a, p, first, run);
      KeptTwice(old(containers), made, containers, a.ino);
      BuiltIff(cfg, old(parent), a, ok);
      WhatFollows(cfg, old(parent), old(dest), old(containers), a);
      ghost var filled := containers;
      if ok {
        MarkedIsOk(containers[a.ino], p.digest);
        p, run := Install(cfg, a, p, first, run);
        KnownBefore(old(containers), containers, old(dest), a.ino, ContainerName(p.digest));
        if p.phase.Done? {
          return p.phase.result, p, run;
        }
      }
      result := p.phase.result;
      run := CleanUp(cfg, a, p, result, first, run);
      KeptTwice(old(containers), filled, containers, a.ino);
      pub := p.(phase := Done(result));
    }
  }

  lemma OneChanged(before: map<Ino, Container>, after: map<Ino, Container>, ino: Ino)
    requires ino in after && (after == before || after == before[ino := after[ino]])
    ensures OthersKept(before, after, ino)
  {
  }

  lemma KeptTwice(a: map<Ino, Container>, b: map<Ino, Container>, c: map<Ino, Container>, ino: Ino)
    requires OthersKept(a, b, ino) && OthersKept(b, c, ino)
    ensures OthersKept(a, c, ino)
  {
  }

  /** Such a sequence is a run of the protocol, so all that holds of runs holds of it. */
  lemma TraceIsRun(cfg: Config, first: State, run: seq<State>, now: State)
    requires Traces(cfg, first, run, now) && Init(cfg, first)
    ensures Run(cfg, run)
  {
    hide Step, Init;
    forall i | 0 <= i < |run| - 1 ensures Next(cfg, run[i], run[i + 1]) {
      assert Step(cfg, run[i], run[i + 1], 0);
    }
  }

  // ------------------------------------------------------------------ each move is a step of the protocol

  lemma QuarantineTo(cfg: Config, first: State, run: seq<State>, parent: map<string, Ino>, dest: map<string, Ino>,
    containers: map<Ino, Container>, pub: Publisher, name: string, result: Result) returns (out: seq<State>)
    requires 0 in cfg.staged && pub.phase == Cleaning(result)
    requires Traces(cfg, first, run, Alone(parent, dest, containers, pub))
    requires name !in parent && pub.privateName in parent && parent[pub.privateName] == pub.ino
    ensures Traces(cfg, first, out, Alone(
      (parent - {pub.privateName})[name := pub.ino], dest, containers, pub.(phase := Quarantined(result))))
  {
    hide Traces;
    var s := Alone(parent, dest, containers, pub);
    var t := Alone((parent - {pub.privateName})[name := pub.ino], dest, containers, pub.(phase := Quarantined(result)));
    assert t == Goto(s, 0, Quarantined(result)).(parent := (parent - {pub.privateName})[name := pub.ino]);
    assert Quarantine(s, t, 0, result);
    Moved(cfg, first, run, s, t);
    out := run + [t];
  }

  lemma RemoveTo(cfg: Config, first: State, run: seq<State>, parent: map<string, Ino>, dest: map<string, Ino>,
    containers: map<Ino, Container>, pub: Publisher, left: Container, result: Result) returns (out: seq<State>)
    requires 0 in cfg.staged && pub.phase == Quarantined(result)
    requires Traces(cfg, first, run, Alone(parent, dest, containers, pub))
    ensures Traces(cfg, first, out, Alone(parent, dest, containers[pub.ino := left], pub))
  {
    hide Traces;
    var s, t := Alone(parent, dest, containers, pub), Alone(parent, dest, containers[pub.ino := left], pub);
    assert Remove(s, t, 0, result);
    Moved(cfg, first, run, s, t);
    out := run + [t];
  }

  lemma EndTo(cfg: Config, first: State, run: seq<State>, parent: map<string, Ino>, dest: map<string, Ino>,
    containers: map<Ino, Container>, pub: Publisher, result: Result) returns (out: seq<State>)
    requires 0 in cfg.staged && (pub.phase == Cleaning(result) || pub.phase == Quarantined(result))
    requires Traces(cfg, first, run, Alone(parent, dest, containers, pub))
    ensures Traces(cfg, first, out, Alone(parent, dest, containers, pub.(phase := Done(result))))
  {
    hide Traces;
    var s, t := Alone(parent, dest, containers, pub), Alone(parent, dest, containers, pub.(phase := Done(result)));
    assert t == Goto(s, 0, Done(result));
    Moved(cfg, first, run, s, t);
    out := run + [t];
  }

  lemma FailTo(cfg: Config, first: State, run: seq<State>, parent: map<string, Ino>, dest: map<string, Ino>,
    containers: map<Ino, Container>, pub: Publisher) returns (out: seq<State>)
    requires 0 in cfg.staged
    requires
      || pub.phase == Private || pub.phase == Installed || pub.phase == Digested || pub.phase == Marked
      || pub.phase == Absent
    requires Traces(cfg, first, run, Alone(parent, dest, containers, pub))
    ensures Traces(cfg, first, out, Alone(parent, dest, containers, pub.(phase := Cleaning(Failed))))
  {
    hide Traces;
    var s, t := Alone(parent, dest, containers, pub), Alone(parent, dest, containers, pub.(phase := Cleaning(Failed)));
    assert t == Goto(s, 0, Cleaning(Failed));
    Moved(cfg, first, run, s, t);
    out := run + [t];
  }

  lemma InstallTo(cfg: Config, first: State, run: seq<State>, parent: map<string, Ino>, dest: map<string, Ino>,
    containers: map<Ino, Container>, pub: Publisher) returns (out: seq<State>)
    requires 0 in cfg.staged && pub.phase == Private
    requires pub.ino in containers && containers[pub.ino] == Container(None, map[])
    requires cfg.staged[0].name in parent && parent[cfg.staged[0].name] == cfg.staged[0].ino
    requires Traces(cfg, first, run, Alone(parent, dest, containers, pub))
    ensures Traces(cfg, first, out, Alone(parent - {cfg.staged[0].name}, dest,
      containers[pub.ino := Container(Some(cfg.staged[0].tree), map[])], pub.(phase := Installed)))
  {
    hide Traces;
    var staged := cfg.staged[0];
    var s := Alone(parent, dest, containers, pub);
    var t := Alone(parent - {staged.name}, dest,
      containers[pub.ino := Container(Some(staged.tree), map[])], pub.(phase := Installed));
    assert t == Goto(s, 0, Installed).(parent := s.parent - {staged.name},
      containers := s.containers[pub.ino := s.containers[pub.ino].(payload := Some(staged.tree))]);
    assert InstallPayload(cfg, s, t, 0);
    Moved(cfg, first, run, s, t);
    out := run + [t];
  }

  lemma HashTo(cfg: Config, first: State, run: seq<State>, parent: map<string, Ino>, dest: map<string, Ino>,
    containers: map<Ino, Container>, pub: Publisher) returns (out: seq<State>)
    requires 0 in cfg.staged && pub.phase == Installed
    requires pub.ino in containers && containers[pub.ino].payload.Some?
    requires cfg.digest(containers[pub.ino].payload.value).Some?
    requires Traces(cfg, first, run, Alone(parent, dest, containers, pub))
    ensures Traces(cfg, first, out, Alone(parent, dest, containers,
      pub.(phase := Digested, digest := cfg.digest(containers[pub.ino].payload.value).value)))
  {
    hide Traces;
    var s := Alone(parent, dest, containers, pub);
    var t := Alone(parent, dest, containers,
      pub.(phase := Digested, digest := cfg.digest(containers[pub.ino].payload.value).value));
    assert HashPayload(cfg, s, t, 0);
    Moved(cfg, first, run, s, t);
    out := run + [t];
  }

  lemma OpenTo(cfg: Config, first: State, run: seq<State>, parent: map<string, Ino>, dest: map<string, Ino>,
    containers: map<Ino, Container>, pub: Publisher) returns (out: seq<State>)
    requires 0 in cfg.staged && pub.phase == Digested && pub.ino in containers && containers[pub.ino].markers == map[]
    requires Traces(cfg, first, run, Alone(parent, dest, containers, pub))
    ensures Traces(cfg, first, out, Alone(parent, dest,
      containers[pub.ino := containers[pub.ino].(markers := map[pub.digest := ""])], pub.(phase := MarkerOpen)))
  {
    hide Traces;
    var s := Alone(parent, dest, containers, pub);
    var t := Alone(parent, dest,
      containers[pub.ino := containers[pub.ino].(markers := map[pub.digest := ""])], pub.(phase := MarkerOpen));
    assert map[][pub.digest := ""] == map[pub.digest := ""];
    assert t == Goto(s, 0, MarkerOpen).(containers := WithMarker(s, pub, ""));
    assert OpenMarker(s, t, 0);
    Moved(cfg, first, run, s, t);
    out := run + [t];
  }

  lemma WriteActs(s: State, t: State, pub: Publisher, phase: Phase, written: string)
    requires s == Alone(s.parent, s.dest, s.containers, pub) && pub.phase == MarkerOpen && pub.ino in s.containers
    requires s.containers[pub.ino].markers == map[pub.digest := ""]
    requires |written| <= |pub.digest| && written == pub.digest[..|written|]
    requires phase == if written == pub.digest then Marked else Cleaning(Failed)
    requires t == Alone(s.parent, s.dest,
      s.containers[pub.ino := s.containers[pub.ino].(markers := map[pub.digest := written])], pub.(phase := phase))
    ensures WriteMarker(s, t, 0)
  {
    assert map[pub.digest := ""][pub.digest := written] == map[pub.digest := written];
    assert t == Goto(s, 0, phase).(containers := WithMarker(s, pub, written));
  }

  lemma WriteIsStep(cfg: Config, s: State, t: State)
    requires 0 in cfg.staged && 0 in s.publishers && s.publishers[0].phase == MarkerOpen && WriteMarker(s, t, 0)
    ensures Step(cfg, s, t, 0)
  {
    hide WriteMarker;
  }

  lemma WriteTo(cfg: Config, first: State, run: seq<State>, parent: map<string, Ino>, dest: map<string, Ino>,
    containers: map<Ino, Container>, pub: Publisher, written: string) returns (out: seq<State>)
    requires 0 in cfg.staged && pub.phase == MarkerOpen && pub.ino in containers
    requires containers[pub.ino].markers == map[pub.digest := ""]
    requires |written| <= |pub.digest| && written == pub.digest[..|written|]
    requires Traces(cfg, first, run, Alone(parent, dest, containers, pub))
    ensures Traces(cfg, first, out, Alone(parent, dest,
      containers[pub.ino := containers[pub.ino].(markers := map[pub.digest := written])],
      pub.(phase := if written == pub.digest then Marked else Cleaning(Failed))))
  {
    hide Traces;
    var s := Alone(parent, dest, containers, pub);
    var phase := if written == pub.digest then Marked else Cleaning(Failed);
    var t := Alone(parent, dest,
      containers[pub.ino := containers[pub.ino].(markers := map[pub.digest := written])], pub.(phase := phase));
    WriteActs(s, t, pub, phase, written);
    hide Step;
    assert Step(cfg, s, t, 0) by { WriteIsStep(cfg, s, t); }
    Moved(cfg, first, run, s, t);
    out := run + [t];
  }

  lemma NotMade(
    cfg: Config, parent: map<string, Ino>, dest: map<string, Ino>, containers: map<Ino, Container>, a: Answers)
    requires 0 in cfg.staged && (!a.makes || a.privateName in parent)
    ensures ExpectedResult(cfg, parent, dest, containers, a) == Failed && Appears(cfg, parent, dest, a) == None
  {
    hide LayoutOk, ContainerName;
  }

  /** Filling the private container works exactly when the digest is built. */
  lemma BuiltIff(cfg: Config, parent: map<string, Ino>, a: Answers, filled: bool)
    requires 0 in cfg.staged && a.makes && a.privateName !in parent && a.ino != cfg.staged[0].ino
    requires var made := parent[a.privateName := a.ino];
      filled <==>
        && a.installs && cfg.staged[0].name in made && made[cfg.staged[0].name] == cfg.staged[0].ino
        && a.hashes && cfg.digest(cfg.staged[0].tree).Some?
        && a.opensMarker && a.markerBytes >= |cfg.digest(cfg.staged[0].tree).value|
    ensures BuiltDigest(cfg, parent, a) == if filled then cfg.digest(cfg.staged[0].tree) else None
  {
  }

  lemma WhatFollows(
    cfg: Config, parent: map<string, Ino>, dest: map<string, Ino>, containers: map<Ino, Container>, a: Answers)
    requires 0 in cfg.staged
    ensures var d := BuiltDigest(cfg, parent, a);
      if d.None? || !a.looks then
        ExpectedResult(cfg, parent, dest, containers, a) == Failed && Appears(cfg, parent, dest, a) == None
      else
        var name := ContainerName(d.value);
        if name in dest then
          && Appears(cfg, parent, dest, a) == None
          && ExpectedResult(cfg, parent, dest, containers, a) ==
             if dest[name] in containers && LayoutOk(containers[dest[name]], d.value) then Published(name) else Failed
        else
          && Appears(cfg, parent, dest, a) == (if a.renames then Some(name) else None)
          && ExpectedResult(cfg, parent, dest, containers, a) ==
             if a.renames && a.reopens then Published(name) else Failed
  {
    hide LayoutOk, ContainerName, BuiltDigest;
  }

  lemma NoneChanged(containers: map<Ino, Container>, ino: Ino)
    ensures OthersKept(containers, containers, ino)
  {
  }

  lemma MarkedIsOk(c: Container, digest: string)
    requires c.payload.Some? && c.markers == map[digest := digest]
    ensures LayoutOk(c, digest)
  {
  }

  /** A container found in the destination is one that was there before. */
  lemma KnownBefore(before: map<Ino, Container>, after: map<Ino, Container>, dest: map<string, Ino>, ino: Ino,
    name: string)
    requires OthersKept(before, after, ino)
    ensures name in dest && dest[name] != ino ==>
      && (dest[name] in before <==> dest[name] in after)
      && (dest[name] in before ==> after[dest[name]] == before[dest[name]])
  {
  }

  lemma RefuseTo(cfg: Config, first: State, run: seq<State>, parent: map<string, Ino>, dest: map<string, Ino>,
    containers: map<Ino, Container>, pub: Publisher) returns (out: seq<State>)
    requires 0 in cfg.staged && pub.phase == Idle
    requires Traces(cfg, first, run, Alone(parent, dest, containers, pub))
    ensures Traces(cfg, first, out, Alone(parent, dest, containers, pub.(phase := Done(Failed))))
  {
    hide Traces;
    var s, t := Alone(parent, dest, containers, pub), Alone(parent, dest, containers, pub.(phase := Done(Failed)));
    assert t == Goto(s, 0, Done(Failed));
    Moved(cfg, first, run, s, t);
    out := run + [t];
  }

  lemma MakeTo(cfg: Config, first: State, run: seq<State>, parent: map<string, Ino>, dest: map<string, Ino>,
    containers: map<Ino, Container>, pub: Publisher, name: string, ino: Ino) returns (out: seq<State>)
    requires cfg.staged.Keys == {0} && pub.phase == Idle
    requires name !in parent && ino !in containers && ino != cfg.staged[0].ino
    requires Traces(cfg, first, run, Alone(parent, dest, containers, pub))
    ensures Traces(cfg, first, out, Alone(parent[name := ino], dest, containers[ino := Container(None, map[])],
      Publisher(Private, true, ino, name, "", false)))
  {
    hide Traces;
    var s := Alone(parent, dest, containers, pub);
    var t := Alone(parent[name := ino], dest, containers[ino := Container(None, map[])],
      Publisher(Private, true, ino, name, "", false));
    assert t == s.(parent := s.parent[name := ino], containers := s.containers[ino := Container(None, map[])],
      publishers := s.publishers[0 := Publisher(Private, true, ino, name, "", false)]);
    assert MakePrivate(cfg, s, t, 0);
    Moved(cfg, first, run, s, t);
    out := run + [t];
  }

  lemma LookTo(cfg: Config, first: State, run: seq<State>, parent: map<string, Ino>, dest: map<string, Ino>,
    containers: map<Ino, Container>, pub: Publisher) returns (out: seq<State>)
    requires 0 in cfg.staged && pub.phase == Marked
    requires ContainerName(pub.digest) in dest ==> dest[ContainerName(pub.digest)] in containers
    requires Traces(cfg, first, run, Alone(parent, dest, containers, pub))
    ensures var name := ContainerName(pub.digest);
      Traces(cfg, first, out, Alone(parent, dest, containers, pub.(phase :=
        if name in dest then
          Cleaning(if LayoutOk(containers[dest[name]], pub.digest) then Published(name) else Failed)
        else Absent)))
  {
    hide Traces, LayoutOk, ContainerName;
    var name := ContainerName(pub.digest);
    var phase :=
      if name in dest then Cleaning(if LayoutOk(containers[dest[name]], pub.digest) then Published(name) else Failed)
      else Absent;
    var s, t := Alone(parent, dest, containers, pub), Alone(parent, dest, containers, pub.(phase := phase));
    assert t == Goto(s, 0, phase);
    assert LookForExisting(s, t, 0, Absent);
    Moved(cfg, first, run, s, t);
    out := run + [t];
  }

  lemma RenameTo(cfg: Config, first: State, run: seq<State>, parent: map<string, Ino>, dest: map<string, Ino>,
    containers: map<Ino, Container>, pub: Publisher) returns (out: seq<State>)
    requires 0 in cfg.staged && pub.phase == Absent && ContainerName(pub.digest) !in dest
    requires pub.privateName in parent && parent[pub.privateName] == pub.ino
    requires Traces(cfg, first, run, Alone(parent, dest, containers, pub))
    ensures Traces(cfg, first, out, Alone(parent - {pub.privateName}, dest[ContainerName(pub.digest) := pub.ino],
      containers, pub.(phase := Renamed, installed := true)))
  {
    hide Traces, ContainerName;
    var s := Alone(parent, dest, containers, pub);
    var t := Alone(parent - {pub.privateName}, dest[ContainerName(pub.digest) := pub.ino], containers,
      pub.(phase := Renamed, installed := true));
    assert RenameNoReplace(s, t, 0);
    Moved(cfg, first, run, s, t);
    out := run + [t];
  }

  lemma VerifyTo(cfg: Config, first: State, run: seq<State>, parent: map<string, Ino>, dest: map<string, Ino>,
    containers: map<Ino, Container>, pub: Publisher, reopens: bool) returns (out: seq<State>)
    requires 0 in cfg.staged && pub.phase == Renamed
    requires pub.ino in containers && LayoutOk(containers[pub.ino], pub.digest)
    requires ContainerName(pub.digest) in dest && dest[ContainerName(pub.digest)] == pub.ino
    requires Traces(cfg, first, run, Alone(parent, dest, containers, pub))
    ensures Traces(cfg, first, out, Alone(parent, dest, containers,
      pub.(phase := Done(if reopens then Published(ContainerName(pub.digest)) else Failed))))
  {
    hide Traces, LayoutOk, ContainerName;
    var done := Done(if reopens then Published(ContainerName(pub.digest)) else Failed);
    var s, t := Alone(parent, dest, containers, pub), Alone(parent, dest, containers, pub.(phase := done));
    assert t == Goto(s, 0, done);
    assert VerifyPublished(s, t, 0);
    Moved(cfg, first, run, s, t);
    out := run + [t];
  }

  // ------------------------------------------------------------------ a container that holds something else

  /** A destination that has a container named and marked `d` with some tree, and a publisher of another one. */
  function TakenName(digest: DigestFn, mine: Tree, d: string, held: Tree): Config {
    Config(
      map[0 := Staged("staging", 1, mine)],
      map[ContainerName(d) := 7],
      map[7 := Container(Some(held), map[d := d])],
      digest)
  }

  /** Where all else works, a publisher is handed a container whose name and marker fit, whatever it holds. */
  lemma HandedExisting(cfg: Config, before: map<string, Ino>, dest: map<string, Ino>, there: map<Ino, Container>,
    private: string, ino: Ino, d: string) returns (run: seq<State>, now: State)
    requires cfg.staged.Keys == {0} && cfg.digest(cfg.staged[0].tree) == Some(d)
    requires cfg.staged[0].name in before && before[cfg.staged[0].name] == cfg.staged[0].ino
    requires private !in before && ino !in there && ino != cfg.staged[0].ino
    requires ContainerName(d) in dest && dest[ContainerName(d)] in there && LayoutOk(there[dest[ContainerName(d)]], d)
    ensures Traces(cfg, Alone(before, dest, there, Publisher(Idle, false, 0, "", "", false)), run, now)
    ensures Returned(now, 0, ContainerName(d)) && now.dest == dest
    ensures OthersKept(there, now.containers, ino)
  {
    hide Traces, Step, ContainerName, LayoutOk;
    var first := Alone(before, dest, there, Publisher(Idle, false, 0, "", "", false));
    var parent, containers := before[private := ino] - {cfg.staged[0].name}, there;
    run := BuiltBy(cfg, before, dest, there, private, ino);
    containers := there[ino := Container(Some(cfg.staged[0].tree), map[])];
    var pub := Publisher(Installed, true, ino, private, "", false);
    run := HashTo(cfg, first, run, parent, dest, containers, pub);
    pub := pub.(phase := Digested, digest := d);
    run := OpenTo(cfg, first, run, parent, dest, containers, pub);
    containers := containers[ino := Container(Some(cfg.staged[0].tree), map[d := ""])];
    pub := pub.(phase := MarkerOpen);
    run := WriteTo(cfg, first, run, parent, dest, containers, pub, d);
    containers := containers[ino := Container(Some(cfg.staged[0].tree), map[d := d])];
    run, now := FoundBy(cfg, first, run, parent, dest, containers, pub.(phase := Marked));
  }

  /** The first half: the private directory with the staged tree in it. */
  lemma BuiltBy(cfg: Config, before: map<string, Ino>, dest: map<string, Ino>, there: map<Ino, Container>,
    private: string, ino: Ino) returns (run: seq<State>)
    requires cfg.staged.Keys == {0} && private !in before && ino !in there && ino != cfg.staged[0].ino
    requires cfg.staged[0].name in before && before[cfg.staged[0].name] == cfg.staged[0].ino
    ensures Traces(cfg, Alone(before, dest, there, Publisher(Idle, false, 0, "", "", false)), run,
      Alone(before[private := ino] - {cfg.staged[0].name}, dest,
        there[ino := Container(Some(cfg.staged[0].tree), map[])], Publisher(Installed, true, ino, private, "", false)))
  {
    hide Traces, Step;
    var idle := Publisher(Idle, false, 0, "", "", false);
    var first := Alone(before, dest, there, idle);
    Started(cfg, first);
    run := MakeTo(cfg, first, [first], before, dest, there, idle, private, ino);
    var made := there[ino := Container(None, map[])];
    run := InstallTo(cfg, first, run, before[private := ino], dest, made,
      Publisher(Private, true, ino, private, "", false));
    assert made[ino := Container(Some(cfg.staged[0].tree), map[])] ==
      there[ino := Container(Some(cfg.staged[0].tree), map[])];
  }

  /** The last part: a fitting container is found, and its path returned. */
  lemma FoundBy(cfg: Config, first: State, run: seq<State>, parent: map<string, Ino>, dest: map<string, Ino>,
    containers: map<Ino, Container>, pub: Publisher) returns (out: seq<State>, now: State)
    requires 0 in cfg.staged && pub.phase == Marked && ContainerName(pub.digest) in dest
    requires dest[ContainerName(pub.digest)] in containers
    requires LayoutOk(containers[dest[ContainerName(pub.digest)]], pub.digest)
    requires Traces(cfg, first, run, Alone(parent, dest, containers, pub))
    ensures Traces(cfg, first, out, now) && Returned(now, 0, ContainerName(pub.digest))
    ensures now.dest == dest && now.containers == containers
  {
    hide Traces, Step, ContainerName, LayoutOk;
    var result := Published(ContainerName(pub.digest));
    out := LookTo(cfg, first, run, parent, dest, containers, pub);
    out := EndTo(cfg, first, out, parent, dest, containers, pub.(phase := Cleaning(result)), result);
    now := Alone(parent, dest, containers, pub.(phase := Done(result)));
  }

  /**
   * Whatever the digest, be it one that tells all trees apart, and whatever the two trees are: the publisher
   * is handed that container. Its name and marker fit, and its payload is not digested again.
   */
  lemma ForeignTreeReturned(digest: DigestFn, mine: Tree, d: string, held: Tree) returns (run: seq<State>)
    requires digest(mine) == Some(d)
    ensures var cfg := TakenName(digest, mine, d, held);
      && Run(cfg, run)
      && var last := run[|run| - 1];
      && Returned(last, 0, ContainerName(d))
      && ContainerName(d) in last.dest && last.dest[ContainerName(d)] in last.containers
      && last.containers[last.dest[ContainerName(d)]].payload == Some(held)
  {
    hide Traces, Step, ContainerName;
    var cfg := TakenName(digest, mine, d, held);
    assert cfg.staged.Keys == {0};
    var idle := Publisher(Idle, false, 0, "", "", false);
    var first := Alone(map["staging" := 1], cfg.foreign, cfg.foreignContainers, idle);
    assert first.publishers.Keys == {0};
    var now;
    run, now := HandedExisting(cfg, map["staging" := 1], cfg.foreign, cfg.foreignContainers, "private", 2, d);
    TraceIsRun(cfg, first, run, now);
    LastOf(cfg, first, run, now);
  }

  /** With a digest that tells all trees apart, and two different trees, it so gets a tree that is not its own. */
  lemma FaithfulDigestDoesNotHelp(digest: DigestFn, mine: Tree, d: string, held: Tree) returns (run: seq<State>)
    requires digest(mine) == Some(d) && !SameTree(mine, held)
    requires Faithful(TakenName(digest, mine, d, held))
    ensures var cfg := TakenName(digest, mine, d, held);
      && Run(cfg, run)
      && var last := run[|run| - 1];
      && Returned(last, 0, ContainerName(d))
      && ContainerName(d) in last.dest && last.dest[ContainerName(d)] in last.containers
      && var payload := last.containers[last.dest[ContainerName(d)]].payload;
      && payload.Some? && !SameTree(mine, payload.value) && digest(payload.value) != Some(d)
  {
    hide Run, ContainerName;
    run := ForeignTreeReturned(digest, mine, d, held);
  }

  lemma LastOf(cfg: Config, first: State, run: seq<State>, now: State)
    requires Traces(cfg, first, run, now)
    ensures run != [] && run[|run| - 1] == now
  {
    hide Step;
  }

  // ------------------------------------------------------------------ a container that stays after a failure

  /** All calls work but the last one: the call fails, and the container of the tree is in the destination. */
  method ReopenFails(digest: DigestFn, mine: Tree, d: string) returns (files: ImportDirectory, result: Result)
    requires digest(mine) == Some(d)
    ensures fresh(files) && result == Failed
    ensures files.dest == map[ContainerName(d) := 2] && 2 in files.containers
    ensures files.containers[2] == Container(Some(mine), map[d := d])
  {
    hide Traces, Step, OthersKept, ContainerName;
    var a := Answers("private", 2, "quarantine", true, true, true, true, |d|, true, true, false, true);
    var cfg := Config(map[0 := Staged("staging", 1, mine)], map[], map[], digest);
    assert cfg.staged.Keys == {0};
    files := new ImportDirectory(map["staging" := 1], map[], map[]);
    assert BuiltDigest(cfg, files.parent, a) == Some(d);
    ghost var pub;
    ghost var run;
    result, pub, run := files.PublishStagingTree(cfg, a);
  }
}
