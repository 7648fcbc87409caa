/** The asynchronous writers behind EncryptToDir and DecryptToDir: one thread walks the
    list of files, makes each parent directory and launches a task a file; the tasks open
    and fill their files in any interleaving. A schedule lists whose turn it is. */
module DirectoryTasks {
  import opened Octets

  type Path = seq<string>

  function Parent(p: Path): Path
    requires p != []
  {
    p[..|p| - 1]
  }

  /** Directories and files below the destination, by path relative to it. */
  datatype FileSystem = FileSystem(dirs: set<Path>, files: map<Path, Bytes>)

  predicate Exists(fs: FileSystem, p: Path) { p in fs.dirs || p in fs.files }

  predicate Fresh(fs: FileSystem) { fs.dirs <= {[]} && fs.files == map[] }

  function Prefixes(p: Path): set<Path> { set i | 0 <= i <= |p| :: p[..i] }

  lemma PrefixesAre(p: Path, q: Path)
    ensures q in Prefixes(p) <==> q <= p
  {
    if q <= p { assert q == p[..|q|]; }
  }

  /** One file to produce. `background` says whether a task or the walking thread writes it,
      `opens` whether the checks made before the file is opened pass and its name can be a file's, and
      `finishes` whether it gets past the checks made after the last write. */
  datatype Job = Job(dest: Path, background: bool, opens: bool, writes: seq<Bytes>, finishes: bool)

  /** A writing task has made `k` writes, which put its own stream at offset `pos`. */
  datatype Phase = Waiting | Writing(k: nat, pos: nat) | Done | Failed

  datatype State = State(fs: FileSystem, next: nat, aborted: bool, phases: seq<Phase>)

  predicate CanOpen(fs: FileSystem, dest: Path) {
    dest != [] && dest !in fs.dirs && Parent(dest) in fs.dirs
  }

  /** The walking thread makes the parent if it does not exist, then launches the task or
      writes the file itself. */
  function WalkStep(jobs: seq<Job>, s: State): State
    requires |s.phases| == |jobs|
  {
    if s.aborted || s.next >= |jobs| then s
    else
      var job := jobs[s.next];
      if job.dest == [] then s.(aborted := true)
      else if Exists(s.fs, Parent(job.dest)) then LaunchStep(job, s)
      else if exists q :: q in Prefixes(Parent(job.dest)) && q in s.fs.files then s.(aborted := true)
      else LaunchStep(job, s.(fs := s.fs.(dirs := s.fs.dirs + Prefixes(Parent(job.dest)))))
  }

  function LaunchStep(job: Job, s: State): State
    requires s.next < |s.phases|
  {
    if job.background then s.(next := s.next + 1)
    else if CanOpen(s.fs, job.dest) then
      State(s.fs.(files := s.fs.files[job.dest := Flatten(job.writes)]), s.next + 1, false, s.phases[s.next := Done])
    else s.(aborted := true)
  }

  function TaskStep(jobs: seq<Job>, s: State, i: nat): State
    requires |s.phases| == |jobs|
  {
    if i >= s.next || i >= |jobs| then s
    else
      var job := jobs[i];
      match s.phases[i]
      case Waiting =>
        if job.opens && CanOpen(s.fs, job.dest)
        then s.(fs := s.fs.(files := s.fs.files[job.dest := []]), phases := s.phases[i := Writing(0, 0)])
        else s.(phases := s.phases[i := Failed])
      case Writing(k, pos) =>
        if k < |job.writes| && job.dest in s.fs.files
        then s.(fs := s.fs.(files := s.fs.files[job.dest := WriteAt(s.fs.files[job.dest], pos, job.writes[k])]),
                phases := s.phases[i := Writing(k + 1, pos + |job.writes[k]|)])
        else s.(phases := s.phases[i := if job.finishes then Done else Failed])
      case _ => s
  }

  /** Turn 0 is the walking thread, turn i + 1 is task i; a turn with nothing to do is idle. */
  function Step(jobs: seq<Job>, s: State, turn: nat): (r: State)
    requires |s.phases| == |jobs|
    ensures |r.phases| == |jobs|
  {
    if turn == 0 then WalkStep(jobs, s) else TaskStep(jobs, s, turn - 1)
  }

  function Run(jobs: seq<Job>, s: State, schedule: seq<nat>): (r: State)
    requires |s.phases| == |jobs|
    ensures |r.phases| == |jobs|
    decreases schedule
  {
    if schedule == [] then s else Run(jobs, Step(jobs, s, schedule[0]), schedule[1..])
  }

  function Start(fs: FileSystem, jobs: seq<Job>): State {
    State(fs, 0, false, seq(|jobs|, _ => Waiting))
  }

  /** The walk is over and every launched task has ended: all futures can be joined. */
  predicate Finished(jobs: seq<Job>, s: State)
    requires |s.phases| == |jobs|
  {
    && (s.aborted || s.next >= |jobs|)
    && forall i :: 0 <= i < |jobs| && i < s.next ==> s.phases[i].Done? || s.phases[i].Failed?
  }

  /** No exception reaches the caller. */
  predicate Succeeded(jobs: seq<Job>, s: State)
    requires |s.phases| == |jobs|
  {
    !s.aborted && s.next >= |jobs| && forall i :: 0 <= i < |jobs| ==> s.phases[i].Done?
  }

  /******* Conditions on the jobs that a caller can check beforehand *******/

  predicate Named(jobs: seq<Job>) { forall i :: 0 <= i < |jobs| ==> jobs[i].dest != [] }

  predicate AllSound(jobs: seq<Job>) {
    forall i :: 0 <= i < |jobs| && jobs[i].background ==> jobs[i].opens && jobs[i].finishes
  }

  /** No file to be written is also needed as a directory. */
  predicate NoCollision(jobs: seq<Job>)
    requires Named(jobs)
  {
    forall i, j :: 0 <= i < |jobs| && 0 <= j < |jobs| ==> !(jobs[i].dest <= Parent(jobs[j].dest))
  }

  /** No other job has the destination of job `i`. */
  ghost predicate Alone(jobs: seq<Job>, i: nat)
    requires i < |jobs|
  {
    forall j :: 0 <= j < |jobs| && j != i ==> jobs[j].dest != jobs[i].dest
  }

  /** All jobs with this destination have the same contents for it. */
  ghost predicate Agree(jobs: seq<Job>, d: Path) {
    forall i, j :: 0 <= i < |jobs| && 0 <= j < |jobs| && jobs[i].dest == d && jobs[j].dest == d ==>
      Flatten(jobs[i].writes) == Flatten(jobs[j].writes)
  }

  /******* What every step keeps *******/

  ghost predicate Opened(phase: Phase) { phase.Writing? || phase.Done? }

  ghost predicate Inv(jobs: seq<Job>, s: State)
    requires |s.phases| == |jobs| && Named(jobs)
  {
    && s.next <= |jobs|
    && (forall i :: s.next <= i < |jobs| ==> s.phases[i].Waiting?)
    && (forall i :: 0 <= i < s.next && !jobs[i].background ==> s.phases[i].Done?)
    && (forall p :: p in s.fs.dirs ==> p !in s.fs.files)
    && (forall p, q :: p in s.fs.dirs && q <= p ==> q in s.fs.dirs)
    && (forall i :: 0 <= i < |jobs| && Opened(s.phases[i]) ==>
          && TaskInv(jobs[i], s.phases[i], s.fs)
          && (Alone(jobs, i) ==> s.fs.files[jobs[i].dest] == WrittenBy(jobs[i], s.phases[i])))
  }

  ghost predicate TaskInv(job: Job, phase: Phase, fs: FileSystem) {
    && job.dest != []
    && (job.background ==> job.opens && (phase.Done? ==> job.finishes))
    && Parent(job.dest) in fs.dirs
    && job.dest in fs.files
    && (phase.Writing? ==> phase.k <= |job.writes| && phase.pos == |Flatten(job.writes[..phase.k])|)
  }

  /** What a task has written so far. */
  ghost function WrittenBy(job: Job, phase: Phase): Bytes
    requires phase.Writing? ==> phase.k <= |job.writes|
  {
    if phase.Writing? then Flatten(job.writes[..phase.k]) else Flatten(job.writes)
  }

  lemma StartInv(fs: FileSystem, jobs: seq<Job>)
    requires Named(jobs) && Fresh(fs)
    ensures Inv(jobs, Start(fs, jobs))
  {}

  lemma TaskStepInv(jobs: seq<Job>, s: State, i: nat)
    requires |s.phases| == |jobs| && Named(jobs) && Inv(jobs, s)
    ensures Inv(jobs, TaskStep(jobs, s, i))
  {
    if i < s.next && s.phases[i].Writing? {
      var job, k := jobs[i], s.phases[i].k;
      assert TaskInv(job, s.phases[i], s.fs);
      if k < |job.writes| {
        WriteStepInv(jobs, s, i);
      } else {
        assert job.writes[..k] == job.writes;
      }
    }
  }

  lemma WriteStepInv(jobs: seq<Job>, s: State, i: nat)
    requires |s.phases| == |jobs| && Named(jobs) && Inv(jobs, s)
    requires i < s.next && s.phases[i].Writing? && s.phases[i].k < |jobs[i].writes|
    ensures Inv(jobs, TaskStep(jobs, s, i))
  {
    var job, k, t := jobs[i], s.phases[i].k, TaskStep(jobs, s, i);
    assert TaskInv(job, s.phases[i], s.fs);
    FlattenSnoc(job.writes, k);
    WriteAtEnd(Flatten(job.writes[..k]), job.writes[k]);
    forall j | 0 <= j < |jobs| && Opened(t.phases[j])
      ensures TaskInv(jobs[j], t.phases[j], t.fs)
      ensures Alone(jobs, j) ==> t.fs.files[jobs[j].dest] == WrittenBy(jobs[j], t.phases[j])
    {
      if j != i { assert TaskInv(jobs[j], s.phases[j], s.fs); }
    }
  }

  lemma MakeDirsInv(jobs: seq<Job>, s: State, p: Path)
    requires |s.phases| == |jobs| && Named(jobs) && Inv(jobs, s)
    requires forall q :: q in Prefixes(p) ==> q !in s.fs.files
    ensures Inv(jobs, s.(fs := s.fs.(dirs := s.fs.dirs + Prefixes(p))))
    ensures p in Prefixes(p)
  {
    var t := s.(fs := s.fs.(dirs := s.fs.dirs + Prefixes(p)));
    PrefixesAre(p, p);
    forall d, q | d in t.fs.dirs && q <= d ensures q in t.fs.dirs {
      PrefixesAre(p, d);
      PrefixesAre(p, q);
    }
    forall i | 0 <= i < |jobs| && Opened(t.phases[i]) ensures TaskInv(jobs[i], t.phases[i], t.fs) {
      assert TaskInv(jobs[i], s.phases[i], s.fs);
    }
  }

  lemma LaunchInv(jobs: seq<Job>, s: State)
    requires |s.phases| == |jobs| && Named(jobs) && Inv(jobs, s)
    requires s.next < |jobs| && !s.aborted
    ensures Inv(jobs, LaunchStep(jobs[s.next], s))
  {
    var t := LaunchStep(jobs[s.next], s);
    forall i | 0 <= i < |jobs| && Opened(t.phases[i])
      ensures TaskInv(jobs[i], t.phases[i], t.fs)
      ensures Alone(jobs, i) ==> t.fs.files[jobs[i].dest] == WrittenBy(jobs[i], t.phases[i])
    {
      if i != s.next { assert TaskInv(jobs[i], s.phases[i], s.fs); }
    }
  }

  lemma WalkStepInv(jobs: seq<Job>, s: State)
    requires |s.phases| == |jobs| && Named(jobs) && Inv(jobs, s)
    ensures Inv(jobs, WalkStep(jobs, s))
  {
    if !s.aborted && s.next < |jobs| {
      var parent := Parent(jobs[s.next].dest);
      if Exists(s.fs, parent) {
        LaunchInv(jobs, s);
      } else if !exists q :: q in Prefixes(parent) && q in s.fs.files {
        MakeDirsInv(jobs, s, parent);
        LaunchInv(jobs, s.(fs := s.fs.(dirs := s.fs.dirs + Prefixes(parent))));
      }
    }
  }

  lemma StepInv(jobs: seq<Job>, s: State, turn: nat)
    requires |s.phases| == |jobs| && Named(jobs) && Inv(jobs, s)
    ensures Inv(jobs, Step(jobs, s, turn))
  {
    if turn > 0 { TaskStepInv(jobs, s, turn - 1); } else { WalkStepInv(jobs, s); }
  }

  lemma {:induction false} RunInv(jobs: seq<Job>, s: State, schedule: seq<nat>)
    requires |s.phases| == |jobs| && Named(jobs) && Inv(jobs, s)
    ensures Inv(jobs, Run(jobs, s, schedule))
    decreases schedule
  {
    if schedule != [] {
      StepInv(jobs, s, schedule[0]);
      RunInv(jobs, Step(jobs, s, schedule[0]), schedule[1..]);
    }
  }

  /** A run that succeeds had sound jobs and no collision. */
  lemma SuccessNeedsNoCollision(jobs: seq<Job>, s: State)
    requires |s.phases| == |jobs| && Named(jobs) && Inv(jobs, s) && Succeeded(jobs, s)
    ensures AllSound(jobs) && NoCollision(jobs)
  {
    forall i | 0 <= i < |jobs| ensures TaskInv(jobs[i], s.phases[i], s.fs) {
      assert Opened(s.phases[i]);
    }
  }

  /******* Sound jobs without a collision never fail *******/

  /** Nothing has failed, and only the jobs' files exist. */
  ghost predicate SafeInv(jobs: seq<Job>, s: State)
    requires |s.phases| == |jobs| && Named(jobs)
  {
    && Inv(jobs, s)
    && !s.aborted
    && (forall i :: 0 <= i < |jobs| ==> !s.phases[i].Failed?)
    && (forall i :: 0 <= i < s.next ==> Parent(jobs[i].dest) in s.fs.dirs)
    && (forall p :: p in s.fs.dirs ==> p == [] || IsAncestor(jobs, p))
    && (forall p :: p in s.fs.files ==> IsDest(jobs, p))
  }

  ghost predicate IsAncestor(jobs: seq<Job>, p: Path)
    requires Named(jobs)
  {
    exists j :: 0 <= j < |jobs| && p <= Parent(jobs[j].dest)
  }

  ghost predicate IsDest(jobs: seq<Job>, p: Path) {
    exists j :: 0 <= j < |jobs| && p == jobs[j].dest
  }

  lemma SafeTaskStep(jobs: seq<Job>, s: State, i: nat)
    requires |s.phases| == |jobs| && Named(jobs) && SafeInv(jobs, s)
    requires AllSound(jobs) && NoCollision(jobs)
    ensures SafeInv(jobs, TaskStep(jobs, s, i))
  {
    TaskStepInv(jobs, s, i);
    if i < s.next {
      var t := TaskStep(jobs, s, i);
      assert IsDest(jobs, jobs[i].dest);
      if Opened(s.phases[i]) { assert TaskInv(jobs[i], s.phases[i], s.fs); }
    }
  }

  lemma SafeLaunch(jobs: seq<Job>, s: State)
    requires |s.phases| == |jobs| && Named(jobs) && SafeInv(jobs, s)
    requires NoCollision(jobs) && s.next < |jobs| && Parent(jobs[s.next].dest) in s.fs.dirs
    ensures SafeInv(jobs, LaunchStep(jobs[s.next], s))
  {
    LaunchInv(jobs, s);
    assert IsDest(jobs, jobs[s.next].dest);
  }

  lemma SafeMakeDirs(jobs: seq<Job>, s: State)
    requires |s.phases| == |jobs| && Named(jobs) && SafeInv(jobs, s)
    requires NoCollision(jobs) && s.next < |jobs|
    ensures var parent := Parent(jobs[s.next].dest);
            && (forall q :: q in Prefixes(parent) ==> q !in s.fs.files)
            && parent !in s.fs.files
            && parent in Prefixes(parent)
            && SafeInv(jobs, s.(fs := s.fs.(dirs := s.fs.dirs + Prefixes(parent))))
  {
    var parent := Parent(jobs[s.next].dest);
    PrefixesAre(parent, parent);
    forall q | q in Prefixes(parent) ensures q !in s.fs.files && IsAncestor(jobs, q) { PrefixesAre(parent, q); }
    MakeDirsInv(jobs, s, parent);
  }

  /** What one turn of the walking thread does when nothing is in its way. */
  lemma SafeWalk(jobs: seq<Job>, s: State) returns (ready: State)
    requires |s.phases| == |jobs| && Named(jobs) && SafeInv(jobs, s)
    requires NoCollision(jobs) && s.next < |jobs|
    ensures ready == s.(fs := s.fs.(dirs := ready.fs.dirs)) && SafeInv(jobs, ready)
    ensures Parent(jobs[s.next].dest) in ready.fs.dirs && WalkStep(jobs, s) == LaunchStep(jobs[s.next], ready)
  {
    var parent := Parent(jobs[s.next].dest);
    SafeMakeDirs(jobs, s);
    ready := if parent in s.fs.dirs then s else s.(fs := s.fs.(dirs := s.fs.dirs + Prefixes(parent)));
  }

  lemma SafeStep(jobs: seq<Job>, s: State, turn: nat)
    requires |s.phases| == |jobs| && Named(jobs) && SafeInv(jobs, s)
    requires AllSound(jobs) && NoCollision(jobs)
    ensures SafeInv(jobs, Step(jobs, s, turn))
  {
    if turn > 0 { SafeTaskStep(jobs, s, turn - 1); } else { SafeWalkStep(jobs, s); }
  }

  lemma SafeWalkStep(jobs: seq<Job>, s: State)
    requires |s.phases| == |jobs| && Named(jobs) && SafeInv(jobs, s) && NoCollision(jobs)
    ensures SafeInv(jobs, WalkStep(jobs, s))
  {
    if s.next < |jobs| {
      var ready := SafeWalk(jobs, s);
      SafeLaunch(jobs, ready);
    }
  }

  /******* Contents of a file with one or more writers that agree *******/

  /** How far a task's own writes reach. */
  ghost function Reach(job: Job, phase: Phase): nat {
    if phase.Writing? then phase.pos else |Flatten(job.writes)|
  }

  /** The task's writes so far are all in the file, and nothing lies beyond its contents. */
  ghost predicate Intact(job: Job, phase: Phase, content: Bytes) {
    IsPrefixUpTo(Flatten(job.writes), Reach(job, phase), content)
  }

  ghost predicate IsPrefixUpTo(whole: Bytes, n: nat, content: Bytes) {
    n <= |content| <= |whole| && content[..n] == whole[..n]
  }

  /** Job `i`, the last to truncate the file, has its writes in it. */
  ghost predicate KeptBy(jobs: seq<Job>, s: State, d: Path, i: int)
    requires |s.phases| == |jobs|
  {
    && 0 <= i < |jobs| && jobs[i].dest == d && d in s.fs.files
    && Opened(s.phases[i]) && Intact(jobs[i], s.phases[i], s.fs.files[d])
  }

  ghost predicate Kept(jobs: seq<Job>, s: State, d: Path)
    requires |s.phases| == |jobs|
  {
    d in s.fs.files ==> exists i :: KeptBy(jobs, s, d, i)
  }

  /** A write of the right bytes at any offset keeps a right prefix, and extends it when it is next. */
  lemma WriteKeeps(whole: Bytes, n: nat, content: Bytes, pos: nat, chunk: Bytes)
    requires IsPrefixUpTo(whole, n, content)
    requires pos + |chunk| <= |whole| && chunk == whole[pos..pos + |chunk|]
    ensures IsPrefixUpTo(whole, n, WriteAt(content, pos, chunk))
    ensures pos == n ==> IsPrefixUpTo(whole, n + |chunk|, WriteAt(content, pos, chunk))
  {
    var after := WriteAt(content, pos, chunk);
    forall b | 0 <= b < n ensures after[b] == whole[b] {
      assert content[b] == content[..n][b] == whole[..n][b];
      if pos <= b < pos + |chunk| { assert after[b] == chunk[b - pos]; }
    }
    if pos == n {
      assert after[..n + |chunk|] == content[..n] + chunk;
      assert whole[..n + |chunk|] == whole[..n] + chunk;
    }
  }

  lemma NextWrite(job: Job, k: nat)
    requires k < |job.writes|
    ensures var pos := |Flatten(job.writes[..k])|;
            && pos + |job.writes[k]| <= |Flatten(job.writes)|
            && job.writes[k] == Flatten(job.writes)[pos..pos + |job.writes[k]|]
  {
    FlattenSnoc(job.writes, k);
    FlattenConcat(job.writes[..k + 1], job.writes[k + 1..]);
    assert job.writes == job.writes[..k + 1] + job.writes[k + 1..];
  }

  /** Sharing job `i` with contents that agree moves on and leaves job `w`'s writes in the file. */
  lemma WritingKeeps(jobs: seq<Job>, s: State, i: nat, d: Path, w: nat)
    requires |s.phases| == |jobs| && i < s.next && i < |jobs| && KeptBy(jobs, s, d, w)
    requires s.phases[i].Writing? && TaskInv(jobs[i], s.phases[i], s.fs) && jobs[i].finishes
    requires jobs[i].dest == d ==> Flatten(jobs[i].writes) == Flatten(jobs[w].writes)
    ensures KeptBy(jobs, TaskStep(jobs, s, i), d, w)
  {
    var job, k, pos, t := jobs[i], s.phases[i].k, s.phases[i].pos, TaskStep(jobs, s, i);
    if k == |job.writes| {
      assert job.writes[..k] == job.writes;
      assert t.fs == s.fs;
    } else if job.dest == d {
      NextWrite(job, k);
      WriteKeeps(Flatten(job.writes), Reach(jobs[w], s.phases[w]), s.fs.files[d], pos, job.writes[k]);
    } else {
      assert t.fs.files[d] == s.fs.files[d];
    }
  }

  lemma TaskStepKeeps(jobs: seq<Job>, s: State, i: nat, d: Path)
    requires |s.phases| == |jobs| && Named(jobs) && SafeInv(jobs, s)
    requires AllSound(jobs) && Agree(jobs, d) && Kept(jobs, s, d)
    ensures Kept(jobs, TaskStep(jobs, s, i), d)
  {
    var t := TaskStep(jobs, s, i);
    if i < s.next && s.phases[i].Waiting? {
      OpeningKeeps(jobs, s, i, d);
    } else if i < s.next && s.phases[i].Writing? && d in s.fs.files {
      var w :| KeptBy(jobs, s, d, w);
      assert TaskInv(jobs[i], s.phases[i], s.fs);
      WritingKeeps(jobs, s, i, d, w);
    }
  }

  lemma OpeningKeeps(jobs: seq<Job>, s: State, i: nat, d: Path)
    requires |s.phases| == |jobs| && Kept(jobs, s, d)
    requires i < s.next && i < |jobs| && s.phases[i].Waiting?
    ensures Kept(jobs, TaskStep(jobs, s, i), d)
  {
    var t := TaskStep(jobs, s, i);
    if d in t.fs.files {
      if t.fs != s.fs && jobs[i].dest == d {
        assert KeptBy(jobs, t, d, i);
      } else {
        var w :| KeptBy(jobs, s, d, w);
        assert KeptBy(jobs, t, d, w);
      }
    }
  }

  lemma LaunchKeeps(jobs: seq<Job>, s: State, d: Path)
    requires |s.phases| == |jobs| && s.next < |jobs| && s.phases[s.next].Waiting? && Kept(jobs, s, d)
    ensures Kept(jobs, LaunchStep(jobs[s.next], s), d)
  {
    var t := LaunchStep(jobs[s.next], s);
    if t.fs != s.fs && jobs[s.next].dest == d {
      assert KeptBy(jobs, t, d, s.next);
    } else if d in s.fs.files {
      var w :| KeptBy(jobs, s, d, w);
      assert KeptBy(jobs, t, d, w);
    }
  }

  lemma StepKeeps(jobs: seq<Job>, s: State, turn: nat, d: Path)
    requires |s.phases| == |jobs| && Named(jobs) && SafeInv(jobs, s)
    requires AllSound(jobs) && NoCollision(jobs) && Agree(jobs, d) && Kept(jobs, s, d)
    ensures Kept(jobs, Step(jobs, s, turn), d)
  {
    if turn > 0 {
      TaskStepKeeps(jobs, s, turn - 1, d);
    } else if s.next < |jobs| {
      var ready := SafeWalk(jobs, s);
      if d in s.fs.files {
        var w :| KeptBy(jobs, s, d, w);
        assert KeptBy(jobs, ready, d, w);
      }
      LaunchKeeps(jobs, ready, d);
    }
  }

  lemma {:induction false} SafeRun(jobs: seq<Job>, s: State, schedule: seq<nat>)
    requires |s.phases| == |jobs| && Named(jobs) && SafeInv(jobs, s)
    requires AllSound(jobs) && NoCollision(jobs)
    requires forall d :: Agree(jobs, d) ==> Kept(jobs, s, d)
    ensures SafeInv(jobs, Run(jobs, s, schedule))
    ensures forall d :: Agree(jobs, d) ==> Kept(jobs, Run(jobs, s, schedule), d)
    decreases schedule
  {
    if schedule != [] {
      var t := Step(jobs, s, schedule[0]);
      SafeStep(jobs, s, schedule[0]);
      forall d | Agree(jobs, d) ensures Kept(jobs, t, d) { StepKeeps(jobs, s, schedule[0], d); }
      SafeRun(jobs, t, schedule[1..]);
    }
  }

  /******* Every complete run *******/

  /** The files a batch of jobs is meant to leave: one at each destination, with the contents of its
      jobs where they agree. */
  ghost predicate Produces(jobs: seq<Job>, files: map<Path, Bytes>) {
    && (forall i :: 0 <= i < |jobs| ==>
          && jobs[i].dest in files
          && (Agree(jobs, jobs[i].dest) ==> files[jobs[i].dest] == Flatten(jobs[i].writes)))
    && (forall p {:trigger IsDest(jobs, p)} :: p in files ==> IsDest(jobs, p))
  }

  lemma ProducesUnique(jobs: seq<Job>, files: map<Path, Bytes>, files': map<Path, Bytes>)
    requires Produces(jobs, files) && Produces(jobs, files')
    requires forall d :: Agree(jobs, d)
    ensures files == files'
  {
    forall p | p in files || p in files' ensures p in files && p in files' && files[p] == files'[p] {
      assert IsDest(jobs, p);
      var i :| 0 <= i < |jobs| && p == jobs[i].dest;
    }
  }

  /** Under every interleaving: the batch succeeds exactly when each job is sound and no file
      is needed as a directory, and then the files are those meant. */
  lemma EveryRun(fs: FileSystem, jobs: seq<Job>, schedule: seq<nat>)
    requires Named(jobs) && Fresh(fs)
    requires Finished(jobs, Run(jobs, Start(fs, jobs), schedule))
    ensures var s := Run(jobs, Start(fs, jobs), schedule);
            && (Succeeded(jobs, s) <==> AllSound(jobs) && NoCollision(jobs))
            && (Succeeded(jobs, s) ==> Produces(jobs, s.fs.files))
  {
    var s := Run(jobs, Start(fs, jobs), schedule);
    StartInv(fs, jobs);
    RunInv(jobs, Start(fs, jobs), schedule);
    if Succeeded(jobs, s) { SuccessNeedsNoCollision(jobs, s); }
    if AllSound(jobs) && NoCollision(jobs) {
      SafeRun(jobs, Start(fs, jobs), schedule);
      forall i | 0 <= i < |jobs|
        ensures jobs[i].dest in s.fs.files
        ensures Agree(jobs, jobs[i].dest) ==> s.fs.files[jobs[i].dest] == Flatten(jobs[i].writes)
      {
        FinishedFile(jobs, s, i);
      }
    }
  }

  lemma FinishedFile(jobs: seq<Job>, s: State, i: nat)
    requires |s.phases| == |jobs| && Named(jobs) && SafeInv(jobs, s) && Finished(jobs, s) && i < |jobs|
    ensures jobs[i].dest in s.fs.files
    ensures Agree(jobs, jobs[i].dest) && Kept(jobs, s, jobs[i].dest) ==>
              s.fs.files[jobs[i].dest] == Flatten(jobs[i].writes)
  {
    var d := jobs[i].dest;
    assert Opened(s.phases[i]);
    assert TaskInv(jobs[i], s.phases[i], s.fs);
    if Agree(jobs, d) && Kept(jobs, s, d) {
      var w :| KeptBy(jobs, s, d, w);
      assert s.phases[w].Done?;
      WholeFile(Flatten(jobs[w].writes), s.fs.files[d]);
    }
  }

  lemma WholeFile(whole: Bytes, content: Bytes)
    requires IsPrefixUpTo(whole, |whole|, content)
    ensures content == whole
  {
    assert content[..|whole|] == content && whole[..|whole|] == whole;
  }

  lemma {:induction false} IdleRun(s: State, schedule: seq<nat>)
    requires s.phases == []
    ensures Run([], s, schedule) == s
    decreases schedule
  {
    if schedule != [] { IdleRun(s, schedule[1..]); }
  }

  /** After a run that succeeds the destination exists, unless it did not before and there was nothing
      to write. */
  lemma RootIff(fs: FileSystem, jobs: seq<Job>, schedule: seq<nat>)
    requires Named(jobs) && Fresh(fs) && Succeeded(jobs, Run(jobs, Start(fs, jobs), schedule))
    ensures [] in Run(jobs, Start(fs, jobs), schedule).fs.dirs <==> jobs != [] || [] in fs.dirs
  {
    var s := Run(jobs, Start(fs, jobs), schedule);
    if jobs == [] {
      IdleRun(Start(fs, jobs), schedule);
    } else {
      StartInv(fs, jobs);
      RunInv(jobs, Start(fs, jobs), schedule);
      assert Opened(s.phases[0]) && TaskInv(jobs[0], s.phases[0], s.fs);
      assert [] <= Parent(jobs[0].dest);
    }
  }

  /******* A file with two writers that do not agree *******/

  lemma {:induction false} RunAlong(jobs: seq<Job>, states: seq<State>, turns: seq<nat>, i: nat)
    requires |states| == |turns| + 1 && i <= |turns|
    requires forall k :: 0 <= k < |states| ==> |states[k].phases| == |jobs|
    requires forall k :: 0 <= k < |turns| ==> Step(jobs, states[k], turns[k]) == states[k + 1]
    ensures Run(jobs, states[i], turns[i..]) == states[|turns|]
    decreases |turns| - i
  {
    if i < |turns| {
      RunAlong(jobs, states, turns, i + 1);
      assert turns[i..][0] == turns[i] && turns[i..][1..] == turns[i + 1..];
    }
  }

  /** A task and the walking thread that write one file. */
  function TwoJobs(d: Path, decrypted: Bytes, copied: Bytes): seq<Job> {
    [Job(d, true, true, [decrypted], true), Job(d, false, true, [copied], true)]
  }

  function TwoState(files: map<Path, Bytes>, next: nat, task: Phase, copy: Phase): State {
    State(FileSystem({[]}, files), next, false, [task, copy])
  }

  lemma TwoStart(d: Path, decrypted: Bytes, copied: Bytes)
    requires |d| == 1
    ensures var jobs := TwoJobs(d, decrypted, copied);
            Step(jobs, Start(FileSystem({}, map[]), jobs), 0) == TwoState(map[], 1, Waiting, Waiting)
  {
    assert Parent(d) == [];
    assert Prefixes([]) == {[]} by { assert forall p: Path :: p == [] ==> p[..0] == []; PrefixesAre([], []); }
  }

  lemma TwoCopy(d: Path, decrypted: Bytes, copied: Bytes, files: map<Path, Bytes>, task: Phase)
    requires |d| == 1
    ensures Step(TwoJobs(d, decrypted, copied), TwoState(files, 1, task, Waiting), 0) ==
            TwoState(files[d := copied], 2, task, Done)
  {
    FlattenOne(copied);
    assert Parent(d) == [];
  }

  lemma TwoOpen(d: Path, decrypted: Bytes, copied: Bytes, files: map<Path, Bytes>, next: nat, copy: Phase)
    requires |d| == 1 && next >= 1
    ensures Step(TwoJobs(d, decrypted, copied), TwoState(files, next, Waiting, copy), 1) ==
            TwoState(files[d := []], next, Writing(0, 0), copy)
  {
    assert Parent(d) == [];
  }

  lemma TwoWrite(d: Path, decrypted: Bytes, copied: Bytes, files: map<Path, Bytes>, next: nat, copy: Phase)
    requires d in files && next >= 1
    ensures Step(TwoJobs(d, decrypted, copied), TwoState(files, next, Writing(0, 0), copy), 1) ==
            TwoState(files[d := WriteAt(files[d], 0, decrypted)], next, Writing(1, |decrypted|), copy)
  {}

  lemma TwoEnd(d: Path, decrypted: Bytes, copied: Bytes, files: map<Path, Bytes>, next: nat, copy: Phase)
    requires next >= 1
    ensures Step(TwoJobs(d, decrypted, copied), TwoState(files, next, Writing(1, |decrypted|), copy), 1) ==
            TwoState(files, next, Done, copy)
  {}

  /** The copy comes after the task, or between its opening and its write. */
  lemma CopyLast(d: Path, decrypted: Bytes, copied: Bytes)
    requires |d| == 1
    ensures var jobs := TwoJobs(d, decrypted, copied);
            Run(jobs, Start(FileSystem({}, map[]), jobs), [0, 1, 1, 1, 0]) == TwoState(map[d := copied], 2, Done, Done)
  {
    var jobs, wrote := TwoJobs(d, decrypted, copied), WriteAt([], 0, decrypted);
    TwoStart(d, decrypted, copied);
    TwoOpen(d, decrypted, copied, map[], 1, Waiting);
    TwoWrite(d, decrypted, copied, map[d := []], 1, Waiting);
    TwoEnd(d, decrypted, copied, map[d := wrote], 1, Waiting);
    TwoCopy(d, decrypted, copied, map[d := wrote], Done);
    var states := [Start(FileSystem({}, map[]), jobs), TwoState(map[], 1, Waiting, Waiting),
                   TwoState(map[d := []], 1, Writing(0, 0), Waiting),
                   TwoState(map[d := wrote], 1, Writing(1, |decrypted|), Waiting),
                   TwoState(map[d := wrote], 1, Done, Waiting), TwoState(map[d := copied], 2, Done, Done)];
    RunAlong(jobs, states, [0, 1, 1, 1, 0], 0);
  }

  lemma CopyBetween(d: Path, decrypted: Bytes, copied: Bytes)
    requires |d| == 1
    ensures var jobs := TwoJobs(d, decrypted, copied);
            Run(jobs, Start(FileSystem({}, map[]), jobs), [0, 1, 0, 1, 1]) ==
            TwoState(map[d := WriteAt(copied, 0, decrypted)], 2, Done, Done)
  {
    var jobs, mixed := TwoJobs(d, decrypted, copied), WriteAt(copied, 0, decrypted);
    TwoStart(d, decrypted, copied);
    TwoOpen(d, decrypted, copied, map[], 1, Waiting);
    TwoCopy(d, decrypted, copied, map[d := []], Writing(0, 0));
    TwoWrite(d, decrypted, copied, map[d := copied], 2, Done);
    TwoEnd(d, decrypted, copied, map[d := mixed], 2, Done);
    var states := [Start(FileSystem({}, map[]), jobs), TwoState(map[], 1, Waiting, Waiting),
                   TwoState(map[d := []], 1, Writing(0, 0), Waiting),
                   TwoState(map[d := copied], 2, Writing(0, 0), Done),
                   TwoState(map[d := mixed], 2, Writing(1, |decrypted|), Done),
                   TwoState(map[d := mixed], 2, Done, Done)];
    RunAlong(jobs, states, [0, 1, 0, 1, 1], 0);
  }

  /******* Runs end *******/

  function TaskWork(job: Job, phase: Phase): nat {
    match phase
    case Waiting => |job.writes| + 2
    case Writing(k, _) => if k < |job.writes| then |job.writes| - k + 1 else 1
    case _ => 0
  }

  function TotalWork(jobs: seq<Job>, phases: seq<Phase>): nat
    requires |phases| == |jobs|
  {
    if jobs == [] then 0 else TaskWork(jobs[0], phases[0]) + TotalWork(jobs[1..], phases[1..])
  }

  function Work(jobs: seq<Job>, s: State): nat
    requires |s.phases| == |jobs|
  {
    TotalWork(jobs, s.phases) + (if s.aborted || s.next >= |jobs| then 0 else |jobs| - s.next)
  }

  lemma {:induction false} TotalWorkUpdate(jobs: seq<Job>, phases: seq<Phase>, i: nat, phase: Phase)
    requires |phases| == |jobs| && i < |jobs|
    ensures TotalWork(jobs, phases[i := phase]) - TaskWork(jobs[i], phase) ==
            TotalWork(jobs, phases) - TaskWork(jobs[i], phases[i])
  {
    if i == 0 {
      assert phases[0 := phase][1..] == phases[1..];
    } else {
      assert phases[i := phase][1..] == phases[1..][i - 1 := phase];
      TotalWorkUpdate(jobs[1..], phases[1..], i - 1, phase);
    }
  }

  lemma TaskStepUsesWork(jobs: seq<Job>, s: State, i: nat)
    requires |s.phases| == |jobs| && TaskStep(jobs, s, i) != s
    ensures Work(jobs, TaskStep(jobs, s, i)) < Work(jobs, s)
  {
    var t := TaskStep(jobs, s, i);
    TotalWorkUpdate(jobs, s.phases, i, t.phases[i]);
    assert t.phases == s.phases[i := t.phases[i]];
    assert TaskWork(jobs[i], t.phases[i]) < TaskWork(jobs[i], s.phases[i]);
  }

  lemma LaunchUsesWork(jobs: seq<Job>, s: State)
    requires |s.phases| == |jobs| && s.next < |jobs| && !s.aborted
    ensures Work(jobs, LaunchStep(jobs[s.next], s)) < Work(jobs, s)
  {
    TotalWorkUpdate(jobs, s.phases, s.next, Done);
  }

  /** A step that does something uses up work, so no run goes on for ever. */
  lemma StepUsesWork(jobs: seq<Job>, s: State, turn: nat)
    requires |s.phases| == |jobs| && Step(jobs, s, turn) != s
    ensures Work(jobs, Step(jobs, s, turn)) < Work(jobs, s)
  {
    if turn > 0 {
      TaskStepUsesWork(jobs, s, turn - 1);
    } else {
      LaunchUsesWork(jobs, s);
      if jobs[s.next].dest != [] {
        LaunchUsesWork(jobs, s.(fs := s.fs.(dirs := s.fs.dirs + Prefixes(Parent(jobs[s.next].dest)))));
      }
    }
  }

  /** Until the batch has finished some thread can move. */
  lemma NotStuck(jobs: seq<Job>, s: State) returns (turn: nat)
    requires |s.phases| == |jobs| && Named(jobs) && !Finished(jobs, s)
    ensures Step(jobs, s, turn) != s
  {
    if !s.aborted && s.next < |jobs| {
      turn := 0;
    } else {
      var i :| 0 <= i < |jobs| && i < s.next && !(s.phases[i].Done? || s.phases[i].Failed?);
      turn := i + 1;
      assert TaskStep(jobs, s, i).phases[i] != s.phases[i];
    }
  }

  /** From any state some schedule leads to the end. */
  lemma {:induction false} Completes(jobs: seq<Job>, s: State) returns (schedule: seq<nat>)
    requires |s.phases| == |jobs| && Named(jobs)
    ensures Finished(jobs, Run(jobs, s, schedule))
    decreases Work(jobs, s)
  {
    if Finished(jobs, s) { return []; }
    var turn := NotStuck(jobs, s);
    StepUsesWork(jobs, s, turn);
    var rest := Completes(jobs, Step(jobs, s, turn));
    schedule := [turn] + rest;
    assert schedule[1..] == rest;
  }
}
