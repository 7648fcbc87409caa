/** The two-party upload: the client sends the encrypted file in up to five attempts, shuts the
    receiver's server down and only then registers the data key. Every message can be lost, every
    handler can stop anywhere, and a copy can stop half-way. */
module UploadProtocol {
  import opened Octets

  const MAX_ATTEMPTS: nat := 5

  /** Fixed for a run: the ciphertext and its key, the id in the output URI, and whether the
      server may still be busy with an abandoned request when the next one arrives. */
  datatype Config = Config(cipher: Bytes, key: Bytes, id: string, overlap: bool)

  datatype Client =
    | Ready(attempts: nat)
    | Waiting(attempts: nat)
    | Uploaded
    | ServerDown
    | Registered
    | Aborted

  /** A request being served. `append` tells a newly created temp file, which is opened for
      appending, from an existing one, which is truncated and written at `pos`. */
  datatype Handler = Handler(stage: Stage, chunks: seq<Bytes>, pos: nat, append: bool)

  datatype Stage = Accepted | Receiving(k: nat) | Copied | Answered(ok: bool) | Dropped

  datatype State = State(
    client: Client,
    temp: Option<Bytes>,
    dest: Option<Bytes>,
    metadata: set<string>,
    shutdownTx: bool,
    shutdowns: nat,
    handlers: seq<Handler>,
    dataKeys: map<string, Bytes>)

  datatype Action =
    | StartAttempt(chunks: seq<Bytes>, reached: bool)
    | OpenTemp(i: nat)
    | WriteChunk(i: nat)
    | CopyBytes(i: nat, n: nat)
    | RegisterMetadata(i: nat, recorded: bool, acknowledged: bool)
    | HandlerError(i: nat)
    | DropHandler(i: nat)
    | UploadReply(delivered: bool)
    | Shutdown(reached: bool, delivered: bool)
    | ForeignShutdown
    | RegisterKey(recorded: bool, acknowledged: bool)

  predicate Active(h: Handler) { !h.stage.Answered? && !h.stage.Dropped? }

  function SetHandler(s: State, i: nat, h: Handler): State
    requires i < |s.handlers|
  {
    s.(handlers := s.handlers[i := h])
  }

  predicate Enabled(c: Config, s: State, a: Action) {
    match a
    case StartAttempt(chunks, _) =>
      && s.client.Ready?
      && Flatten(chunks) == c.cipher
      && (c.overlap || forall i :: 0 <= i < |s.handlers| ==> !Active(s.handlers[i]))
    case OpenTemp(i) => i < |s.handlers| && s.handlers[i].stage.Accepted?
    case WriteChunk(i) =>
      && i < |s.handlers| && s.temp.Some?
      && s.handlers[i].stage.Receiving? && s.handlers[i].stage.k < |s.handlers[i].chunks|
    case CopyBytes(i, _) =>
      && i < |s.handlers| && s.temp.Some?
      && s.handlers[i].stage.Receiving? && s.handlers[i].stage.k == |s.handlers[i].chunks|
    case RegisterMetadata(i, _, _) => i < |s.handlers| && s.handlers[i].stage.Copied?
    case HandlerError(i) => i < |s.handlers| && Active(s.handlers[i])
    case DropHandler(i) => i < |s.handlers| && Active(s.handlers[i])
    case UploadReply(delivered) =>
      && s.client.Waiting? && s.handlers != []
      && (delivered ==> s.handlers[|s.handlers| - 1].stage.Answered?)
    case Shutdown(_, _) => s.client.Uploaded?
    case ForeignShutdown => true
    case RegisterKey(_, _) => s.client.ServerDown?
  }

  function Retry(attempts: nat): Client {
    if attempts < MAX_ATTEMPTS then Ready(attempts) else Aborted
  }

  function Apply(c: Config, s: State, a: Action): State
    requires Enabled(c, s, a)
  {
    match a
    case StartAttempt(chunks, reached) =>
      var h := Handler(if reached && s.shutdownTx then Accepted else Dropped, chunks, 0, false);
      s.(client := Waiting(s.client.attempts + 1), handlers := s.handlers + [h])
    case OpenTemp(i) =>
      var h := s.handlers[i].(stage := Receiving(0), pos := 0, append := s.temp.None?);
      SetHandler(s.(temp := Some([])), i, h)
    case WriteChunk(i) =>
      var h := s.handlers[i];
      var chunk := h.chunks[h.stage.k];
      var at := if h.append then |s.temp.value| else h.pos;
      SetHandler(s.(temp := Some(WriteAt(s.temp.value, at, chunk))), i,
                 h.(stage := Receiving(h.stage.k + 1), pos := h.pos + |chunk|))
    case CopyBytes(i, n) =>
      var t := s.(dest := Some(s.temp.value[..Min(n, |s.temp.value|)]));
      if n < |s.temp.value| then t else SetHandler(t, i, s.handlers[i].(stage := Copied))
    case RegisterMetadata(i, recorded, acknowledged) =>
      var t := if recorded then s.(metadata := s.metadata + {c.id}) else s;
      SetHandler(t, i, s.handlers[i].(stage := Answered(recorded && acknowledged)))
    case HandlerError(i) => SetHandler(s, i, s.handlers[i].(stage := Answered(false)))
    case DropHandler(i) => SetHandler(s, i, s.handlers[i].(stage := Dropped))
    case UploadReply(delivered) =>
      if delivered && s.handlers[|s.handlers| - 1].stage.ok then s.(client := Uploaded)
      else s.(client := Retry(s.client.attempts))
    case Shutdown(reached, delivered) =>
      var t := if reached then TakeShutdown(s) else s;
      t.(client := if reached && s.shutdownTx && delivered then ServerDown else Aborted)
    case ForeignShutdown => TakeShutdown(s)
    case RegisterKey(recorded, acknowledged) =>
      var t := if recorded then s.(dataKeys := s.dataKeys[c.id := c.key]) else s;
      t.(client := if recorded && acknowledged then Registered else Aborted)
  }

  /** The sender is taken out of its slot: only the first request finds it. */
  function TakeShutdown(s: State): State {
    if s.shutdownTx then s.(shutdownTx := false, shutdowns := s.shutdowns + 1) else s
  }

  function Step(c: Config, s: State, a: Action): State {
    if Enabled(c, s, a) then Apply(c, s, a) else s
  }

  function Run(c: Config, s: State, actions: seq<Action>): State
    decreases |actions|
  {
    if actions == [] then s else Run(c, Step(c, s, actions[0]), actions[1..])
  }

  /** Whatever an earlier task left in the temp and destination files and in the metadata. */
  predicate Initial(s: State) {
    && s.client == Ready(0) && s.handlers == []
    && s.shutdownTx && s.shutdowns == 0
    && s.dataKeys == map[]
  }

  /******* Every run with one handler at a time *******/

  /** What the handler in charge knows about the files. */
  ghost predicate HandlerInv(c: Config, s: State, h: Handler) {
    && Flatten(h.chunks) == c.cipher
    && match h.stage
       case Receiving(k) =>
         && k <= |h.chunks|
         && s.temp == Some(Flatten(h.chunks[..k]))
         && h.pos == |Flatten(h.chunks[..k])|
       case Copied => s.dest == Some(c.cipher)
       case Answered(ok) => ok ==> s.dest == Some(c.cipher) && c.id in s.metadata
       case _ => true
  }

  ghost predicate Delivered(c: Config, s: State) {
    s.dest == Some(c.cipher) && c.id in s.metadata
  }

  /** The key is recorded, whether or not the client knows, and no handler is left to change anything. */
  ghost predicate OnRecord(c: Config, s: State) {
    && (s.client.Registered? || s.client.Aborted?)
    && s.handlers != [] && !Active(s.handlers[|s.handlers| - 1])
    && Delivered(c, s) && s.shutdowns == 1 && s.dataKeys == map[c.id := c.key]
  }

  ghost predicate Inv(c: Config, s: State) {
    var n := |s.handlers|;
    && (forall i :: 0 <= i < n - 1 ==> !Active(s.handlers[i]))
    && (n > 0 ==> HandlerInv(c, s, s.handlers[n - 1]))
    && (s.client.Waiting? ==> n > 0)
    && (s.client.Waiting? || s.client.Ready? ==> n == s.client.attempts)
    && (s.client.Ready? ==> n < MAX_ATTEMPTS)
    && n <= MAX_ATTEMPTS
    && (s.client.Uploaded? || s.client.ServerDown? || s.client.Registered? ==>
          n > 0 && !Active(s.handlers[n - 1]) && Delivered(c, s))
    && (s.shutdownTx ==> s.shutdowns == 0) && (!s.shutdownTx ==> s.shutdowns == 1)
    && (s.client.ServerDown? || s.client.Registered? ==> s.shutdowns == 1)
    && (s.client.Registered? ==> c.id in s.dataKeys)
    && (s.dataKeys != map[] ==> OnRecord(c, s))
  }

  lemma WriteStepInv(c: Config, s: State, a: Action)
    requires Inv(c, s) && Enabled(c, s, a) && a.WriteChunk?
    ensures Inv(c, Apply(c, s, a))
  {
    assert a.i == |s.handlers| - 1;
    var h := s.handlers[a.i];
    FlattenSnoc(h.chunks, h.stage.k);
    WriteAtEnd(s.temp.value, h.chunks[h.stage.k]);
  }

  lemma CopyStepInv(c: Config, s: State, a: Action)
    requires Inv(c, s) && Enabled(c, s, a) && a.CopyBytes?
    ensures Inv(c, Apply(c, s, a))
  {
    assert a.i == |s.handlers| - 1;
    var h := s.handlers[a.i];
    assert h.chunks[..h.stage.k] == h.chunks;
    assert s.temp.value[..|s.temp.value|] == s.temp.value;
  }

  lemma HandlerStepInv(c: Config, s: State, a: Action)
    requires Inv(c, s) && Enabled(c, s, a)
    requires a.OpenTemp? || a.RegisterMetadata? || a.HandlerError? || a.DropHandler?
    ensures Inv(c, Apply(c, s, a))
  {
    assert a.i == |s.handlers| - 1;
  }

  lemma FinalStepInv(c: Config, s: State, a: Action)
    requires Inv(c, s) && Enabled(c, s, a)
    requires a.Shutdown? || a.ForeignShutdown? || a.RegisterKey?
    ensures Inv(c, Apply(c, s, a))
  {}

  lemma AttemptStepInv(c: Config, s: State, a: Action)
    requires Inv(c, s) && Enabled(c, s, a) && (a.UploadReply? || (a.StartAttempt? && !c.overlap))
    ensures Inv(c, Apply(c, s, a))
  {
    if a.StartAttempt? {
      var t := Apply(c, s, a);
      assert t.handlers[|s.handlers|].chunks == a.chunks;
    }
  }

  lemma StepInv(c: Config, s: State, a: Action)
    requires Inv(c, s) && (a.StartAttempt? ==> !c.overlap)
    ensures Inv(c, Step(c, s, a))
  {
    if Enabled(c, s, a) {
      if a.StartAttempt? || a.UploadReply? {
        AttemptStepInv(c, s, a);
      } else if a.Shutdown? || a.ForeignShutdown? || a.RegisterKey? {
        FinalStepInv(c, s, a);
      } else if a.WriteChunk? {
        WriteStepInv(c, s, a);
      } else if a.CopyBytes? {
        CopyStepInv(c, s, a);
      } else {
        HandlerStepInv(c, s, a);
      }
    }
  }

  lemma {:induction false} HandlersGrow(c: Config, s: State, actions: seq<Action>)
    ensures |s.handlers| <= |Run(c, s, actions).handlers|
    decreases |actions|
  {
    if actions != [] { HandlersGrow(c, Step(c, s, actions[0]), actions[1..]); }
  }

  /** Kept by every run in which handlers do not overlap, and by every stretch without a new attempt. */
  lemma {:induction false} RunInv(c: Config, s: State, actions: seq<Action>)
    requires Inv(c, s) && (!c.overlap || |Run(c, s, actions).handlers| == |s.handlers|)
    ensures Inv(c, Run(c, s, actions))
    decreases |actions|
  {
    if actions != [] {
      var a := actions[0];
      HandlersGrow(c, Step(c, s, a), actions[1..]);
      if c.overlap && a.StartAttempt? && Enabled(c, s, a) {
        assert false;
      } else if c.overlap && a.StartAttempt? {
        assert Step(c, s, a) == s;
        RunInv(c, s, actions[1..]);
      } else {
        StepInv(c, s, a);
        RunInv(c, Step(c, s, a), actions[1..]);
      }
    }
  }

  /** A registered data key is the key of the ciphertext that the receiver holds in full, under
      the id its metadata carries, and exactly one shutdown was accepted. */
  ghost predicate Guarantee(c: Config, t: State) {
    forall id :: id in t.dataKeys ==>
      && id == c.id && t.dataKeys[id] == c.key
      && t.dest == Some(c.cipher) && id in t.metadata
      && t.shutdowns == 1 && !t.shutdownTx
  }

  lemma RegisteredImpliesDelivered(c: Config, s: State, actions: seq<Action>)
    requires !c.overlap && Initial(s)
    ensures var t := Run(c, s, actions);
            && Guarantee(c, t) && |t.handlers| <= MAX_ATTEMPTS && t.shutdowns <= 1
            && (t.client.Registered? ==> c.id in t.dataKeys)
  {
    RunInv(c, s, actions);
  }

  lemma {:induction false} RunConcat(c: Config, s: State, xs: seq<Action>, ys: seq<Action>)
    ensures Run(c, s, xs + ys) == Run(c, Run(c, s, xs), ys)
    decreases |xs|
  {
    if xs == [] {
      assert xs + ys == ys;
    } else {
      assert (xs + ys)[1..] == xs[1..] + ys;
      RunConcat(c, Step(c, s, xs[0]), xs[1..], ys);
    }
  }

  /** Once the key is recorded, even if the client was not told, nothing that happens later changes
      the file, its metadata, the key or what the client believes. */
  lemma RegisteredIsStable(c: Config, s: State, actions: seq<Action>, more: seq<Action>)
    requires !c.overlap && Initial(s)
    requires Run(c, s, actions).client.Registered? || c.id in Run(c, s, actions).dataKeys
    ensures var t, u := Run(c, s, actions), Run(c, s, actions + more);
            u.client == t.client && u.dest == t.dest && u.dataKeys == t.dataKeys && c.id in u.metadata
  {
    RunInv(c, s, actions);
    RunConcat(c, s, actions, more);
    StableFrom(c, Run(c, s, actions), more);
  }

  lemma {:induction false} StableFrom(c: Config, s: State, actions: seq<Action>)
    requires !c.overlap && Inv(c, s) && s.dataKeys != map[]
    ensures var u := Run(c, s, actions);
            u.client == s.client && u.dest == s.dest && u.dataKeys == s.dataKeys && c.id in u.metadata
    decreases |actions|
  {
    if actions != [] {
      var t := Step(c, s, actions[0]);
      RunInv(c, s, actions[..1]);
      assert Run(c, s, actions[..1]) == t by {
        assert actions[..1][1..] == [];
        assert Run(c, t, []) == t;
      }
      assert t == s || t == TakeShutdown(s) by {
        assert forall i :: 0 <= i < |s.handlers| ==> !Active(s.handlers[i]);
      }
      StableFrom(c, t, actions[1..]);
    }
  }

  /******* One undisturbed attempt is enough *******/

  /** What holds in every run, however handlers overlap. */
  ghost predicate Always(c: Config, s: State) {
    var n := |s.handlers|;
    && (forall i :: 0 <= i < n ==> Flatten(s.handlers[i].chunks) == c.cipher)
    && (s.client.Waiting? ==> n > 0)
    && (s.client.Waiting? || s.client.Ready? ==> n == s.client.attempts)
    && (s.client.Ready? ==> n < MAX_ATTEMPTS)
    && n <= MAX_ATTEMPTS
    && (s.client.Uploaded? || s.client.ServerDown? || s.client.Registered? || s.dataKeys != map[] ==>
          n > 0 && s.handlers[n - 1].stage == Answered(true))
    && (s.dataKeys != map[] ==> s.client.Registered? || s.client.Aborted?)
    && (s.client.Registered? ==> c.id in s.dataKeys)
    && (s.shutdownTx ==> s.shutdowns == 0) && (!s.shutdownTx ==> s.shutdowns == 1)
    && (s.client.ServerDown? || s.client.Registered? ==> s.shutdowns == 1)
  }

  /** A handler at work moves on; neither the client nor the shutdown sender nor the keys change. */
  lemma AlwaysUpdate(c: Config, s: State, t: State, i: nat)
    requires Always(c, s) && i < |s.handlers| && Active(s.handlers[i]) && i < |t.handlers|
    requires t.handlers == s.handlers[i := t.handlers[i]] && t.handlers[i].chunks == s.handlers[i].chunks
    requires t.client == s.client && t.dataKeys == s.dataKeys
    requires t.shutdownTx == s.shutdownTx && t.shutdowns == s.shutdowns
    ensures Always(c, t)
  {}

  lemma AlwaysHandlerStep(c: Config, s: State, a: Action)
    requires Always(c, s) && Enabled(c, s, a)
    requires a.OpenTemp? || a.WriteChunk? || a.CopyBytes? || a.RegisterMetadata? || a.HandlerError? || a.DropHandler?
    ensures Always(c, Apply(c, s, a))
  {
    AlwaysUpdate(c, s, Apply(c, s, a), a.i);
  }

  lemma AlwaysClientStep(c: Config, s: State, a: Action)
    requires Always(c, s) && Enabled(c, s, a) && (a.StartAttempt? || a.UploadReply?)
    ensures Always(c, Apply(c, s, a))
  {}

  lemma AlwaysFinalStep(c: Config, s: State, a: Action)
    requires Always(c, s) && Enabled(c, s, a) && (a.Shutdown? || a.ForeignShutdown? || a.RegisterKey?)
    ensures Always(c, Apply(c, s, a))
  {}

  lemma AlwaysStep(c: Config, s: State, a: Action)
    requires Always(c, s)
    ensures Always(c, Step(c, s, a))
  {
    if Enabled(c, s, a) {
      if a.StartAttempt? || a.UploadReply? {
        AlwaysClientStep(c, s, a);
      } else if a.Shutdown? || a.ForeignShutdown? || a.RegisterKey? {
        AlwaysFinalStep(c, s, a);
      } else {
        AlwaysHandlerStep(c, s, a);
      }
    }
  }

  lemma {:induction false} AlwaysRun(c: Config, s: State, actions: seq<Action>)
    requires Always(c, s)
    ensures Always(c, Run(c, s, actions))
    decreases |actions|
  {
    if actions != [] {
      AlwaysStep(c, s, actions[0]);
      AlwaysRun(c, Step(c, s, actions[0]), actions[1..]);
    }
  }

  /** No handler but the last is at work. */
  ghost predicate LastAlone(s: State) {
    forall j :: 0 <= j < |s.handlers| - 1 ==> !Active(s.handlers[j])
  }

  /** Whenever the attempt that turns out to be the last one opens its temp file, it is alone. */
  ghost predicate Undisturbed(c: Config, s: State, actions: seq<Action>) {
    AlwaysOpensAlone(c, s, actions, |Run(c, s, actions).handlers| - 1)
  }

  ghost predicate AlwaysOpensAlone(c: Config, s: State, actions: seq<Action>, i: int) {
    forall k :: 0 <= k < |actions| ==> OpensAlone(c, s, actions, k, i)
  }

  ghost predicate OpensAlone(c: Config, s: State, actions: seq<Action>, k: nat, i: int)
    requires k < |actions|
  {
    actions[k].OpenTemp? && actions[k].i == i && Enabled(c, Run(c, s, actions[..k]), actions[k]) ==>
      LastAlone(Run(c, s, actions[..k]))
  }

  ghost predicate HasOpened(h: Handler) { h.stage.Receiving? || h.stage.Copied? || h.stage == Answered(true) }

  /** A handler that has opened its temp file did so at some step. */
  lemma {:induction false} OpeningMoment(c: Config, s: State, actions: seq<Action>, i: nat) returns (k: nat)
    requires s.handlers == [] && i < |Run(c, s, actions).handlers| && HasOpened(Run(c, s, actions).handlers[i])
    ensures k < |actions| && actions[k] == OpenTemp(i) && Enabled(c, Run(c, s, actions[..k]), actions[k])
    decreases |actions|
  {
    var n := |actions| - 1;
    var front, a := actions[..n], actions[n];
    assert actions == front + [a];
    RunSnoc(c, s, front, a);
    var m := Run(c, s, front);
    if i < |m.handlers| && HasOpened(m.handlers[i]) {
      k := OpeningMoment(c, s, front, i);
      assert front[..k] == actions[..k];
    } else {
      k := n;
    }
  }

  lemma OpeningInv(c: Config, s: State)
    requires Always(c, s) && s.handlers != [] && Enabled(c, s, OpenTemp(|s.handlers| - 1)) && LastAlone(s)
    ensures Inv(c, Step(c, s, OpenTemp(|s.handlers| - 1)))
  {
    var h := s.handlers[|s.handlers| - 1];
    assert h.chunks[..0] == [];
  }

  lemma AloneFromOpening(c: Config, s: State, rest: seq<Action>)
    requires Always(c, s) && s.handlers != [] && Enabled(c, s, OpenTemp(|s.handlers| - 1)) && LastAlone(s)
    requires |Run(c, Step(c, s, OpenTemp(|s.handlers| - 1)), rest).handlers| == |s.handlers|
    ensures Guarantee(c, Run(c, Step(c, s, OpenTemp(|s.handlers| - 1)), rest))
  {
    OpeningInv(c, s);
    RunInv(c, Step(c, s, OpenTemp(|s.handlers| - 1)), rest);
  }

  lemma SplitRun(c: Config, s: State, actions: seq<Action>, k: nat)
    requires k < |actions|
    ensures Run(c, s, actions) == Run(c, Step(c, Run(c, s, actions[..k]), actions[k]), actions[k + 1..])
    ensures |Run(c, s, actions[..k]).handlers| <= |Run(c, s, actions).handlers|
  {
    var front, rest := actions[..k], actions[k..];
    assert front + rest == actions && rest[1..] == actions[k + 1..];
    RunConcat(c, s, front, rest);
    HandlersGrow(c, Run(c, s, front), rest);
  }

  /** The guarantee holds in every run, overlapping or not, in which the attempt that is answered is the
      only one at work from the moment it opens its temp file. */
  lemma UndisturbedDelivers(c: Config, s: State, actions: seq<Action>)
    requires Initial(s) && Undisturbed(c, s, actions)
    ensures Guarantee(c, Run(c, s, actions))
  {
    AlwaysInitially(c, s);
    AlwaysRun(c, s, actions);
    if Run(c, s, actions).dataKeys != map[] {
      var k := OpeningMoment(c, s, actions, |Run(c, s, actions).handlers| - 1);
      assert OpensAlone(c, s, actions, k, |Run(c, s, actions).handlers| - 1);
      DeliveredFrom(c, s, actions, k);
    }
  }

  /** Handlers that never overlap leave every attempt undisturbed. */
  lemma OneAtATimeIsUndisturbed(c: Config, s: State, actions: seq<Action>)
    requires Initial(s) && !c.overlap
    ensures Undisturbed(c, s, actions)
  {
    var last := |Run(c, s, actions).handlers| - 1;
    forall k | 0 <= k < |actions| ensures OpensAlone(c, s, actions, k, last) {
      RunInv(c, s, actions[..k]);
    }
  }

  lemma AlwaysInitially(c: Config, s: State)
    requires Initial(s)
    ensures Always(c, s)
  {}

  lemma DeliveredFrom(c: Config, s: State, actions: seq<Action>, k: nat)
    requires Always(c, s) && k < |actions| && Run(c, s, actions).handlers != []
    requires actions[k] == OpenTemp(|Run(c, s, actions).handlers| - 1)
    requires Enabled(c, Run(c, s, actions[..k]), actions[k]) && LastAlone(Run(c, s, actions[..k]))
    ensures Guarantee(c, Run(c, s, actions))
  {
    AlwaysRun(c, s, actions[..k]);
    SplitRun(c, s, actions, k);
    AloneFromOpening(c, Run(c, s, actions[..k]), actions[k + 1..]);
  }

  /******* One handler at a time is needed *******/

  lemma RunSnoc(c: Config, s: State, actions: seq<Action>, a: Action)
    ensures Run(c, s, actions + [a]) == Step(c, Run(c, s, actions), a)
  {
    RunConcat(c, s, actions, [a]);
    var t := Run(c, s, actions);
    assert [a][1..] == [];
    assert Run(c, t, [a]) == Run(c, Step(c, t, a), []);
  }

  /** An attempt that receives the whole file in one chunk. */
  lemma ReceiveAll(c: Config, s: State) returns (actions: seq<Action>)
    requires s.client.Ready? && s.shutdownTx
    requires c.overlap || forall i :: 0 <= i < |s.handlers| ==> !Active(s.handlers[i])
    ensures var t := Run(c, s, actions);
            && t == s.(client := Waiting(s.client.attempts + 1), temp := Some(c.cipher), handlers := t.handlers)
            && |t.handlers| == |s.handlers| + 1 && s.handlers <= t.handlers
            && t.handlers[|s.handlers|].stage == Receiving(1) && t.handlers[|s.handlers|].chunks == [c.cipher]
  {
    var i := |s.handlers|;
    FlattenOne(c.cipher);
    actions := [StartAttempt([c.cipher], true)];
    RunSnoc(c, s, [], actions[0]);
    assert [] + actions == actions;
    var t := Run(c, s, actions);
    assert t == s.(client := Waiting(s.client.attempts + 1),
                 handlers := s.handlers + [Handler(Accepted, [c.cipher], 0, false)]);
    RunSnoc(c, s, actions, OpenTemp(i));
    actions := actions + [OpenTemp(i)];
    RunSnoc(c, s, actions, WriteChunk(i));
    WriteAtEnd([], c.cipher);
    assert [] + c.cipher == c.cipher;
    actions := actions + [WriteChunk(i)];
  }

  /** A handler that has received the file and is left alone answers with success. */
  lemma AnswerAll(c: Config, s: State, before: seq<Action>) returns (actions: seq<Action>)
    requires var t := Run(c, s, before);
             && t.client.Waiting? && t.temp == Some(c.cipher) && t.handlers != []
             && t.shutdownTx && t.dataKeys == map[]
             && t.handlers[|t.handlers| - 1].stage == Receiving(1) && t.handlers[|t.handlers| - 1].chunks == [c.cipher]
    ensures var t := Run(c, s, actions);
            && t.client.Uploaded? && t.dest == Some(c.cipher) && c.id in t.metadata
            && t.shutdownTx && t.dataKeys == map[]
            && |t.handlers| == |Run(c, s, before).handlers|
  {
    var i := |Run(c, s, before).handlers| - 1;
    actions := before;
    assert c.cipher[..|c.cipher|] == c.cipher;
    RunSnoc(c, s, actions, CopyBytes(i, |c.cipher|));
    actions := actions + [CopyBytes(i, |c.cipher|)];
    RunSnoc(c, s, actions, RegisterMetadata(i, true, true));
    actions := actions + [RegisterMetadata(i, true, true)];
    RunSnoc(c, s, actions, UploadReply(true));
    actions := actions + [UploadReply(true)];
  }

  /** From a client that is ready, an undisturbed attempt registers the key. */
  lemma RegisterFrom(c: Config, s: State, before: seq<Action>) returns (actions: seq<Action>)
    requires var t := Run(c, s, before);
             && t.client.Ready? && t.shutdownTx && t.dataKeys == map[]
             && forall i :: 0 <= i < |t.handlers| ==> !Active(t.handlers[i])
    ensures var t := Run(c, s, actions);
            && t.client.Registered? && t.dataKeys == map[c.id := c.key]
            && t.dest == Some(c.cipher) && c.id in t.metadata
            && |t.handlers| == |Run(c, s, before).handlers| + 1
  {
    var attempt := ReceiveAll(c, Run(c, s, before));
    RunConcat(c, s, before, attempt);
    actions := AnswerAll(c, s, before + attempt);
    RunSnoc(c, s, actions, Shutdown(true, true));
    actions := actions + [Shutdown(true, true)];
    RunSnoc(c, s, actions, RegisterKey(true, true));
    actions := actions + [RegisterKey(true, true)];
  }

  /** An undisturbed run does register the key. */
  lemma CanRegister(c: Config, s: State) returns (actions: seq<Action>)
    requires Initial(s)
    ensures var t := Run(c, s, actions);
            t.client.Registered? && t.dataKeys == map[c.id := c.key] && t.dest == Some(c.cipher) && c.id in t.metadata
  {
    actions := RegisterFrom(c, s, []);
  }

  /** `k` attempts that never reach the server. */
  lemma {:induction false} LostAttempts(c: Config, s: State, k: nat) returns (actions: seq<Action>)
    requires Initial(s) && k <= 5
    ensures var t := Run(c, s, actions);
            && t == s.(client := t.client, handlers := t.handlers) && |t.handlers| == k
            && t.client == (if k < 5 then Ready(k) else Aborted)
            && forall i :: 0 <= i < k ==> !Active(t.handlers[i])
    decreases k
  {
    if k == 0 { return []; }
    actions := LostAttempts(c, s, k - 1);
    FlattenOne(c.cipher);
    RunSnoc(c, s, actions, StartAttempt([c.cipher], false));
    actions := actions + [StartAttempt([c.cipher], false)];
    RunSnoc(c, s, actions, UploadReply(false));
    actions := actions + [UploadReply(false)];
  }

  /** Up to four lost attempts leave a further one that can still register the key; the fifth lost one
      ends the upload. */
  lemma FiveAttempts(c: Config, s: State, k: nat) returns (lost: seq<Action>, actions: seq<Action>)
    requires Initial(s) && k <= 5
    ensures |Run(c, s, lost).handlers| == k
    ensures k < 5 ==> Run(c, s, actions).client.Registered? && |Run(c, s, actions).handlers| == k + 1
    ensures k == 5 ==> Run(c, s, lost).client.Aborted?
  {
    lost := LostAttempts(c, s, k);
    actions := [];
    if k < 5 { actions := RegisterFrom(c, s, lost); }
  }

  /** A client that has given up starts nothing and registers nothing. */
  lemma {:induction false} AbortedStays(c: Config, s: State, actions: seq<Action>)
    requires s.client.Aborted?
    ensures Run(c, s, actions).client.Aborted? && Run(c, s, actions).dataKeys == s.dataKeys
    ensures |Run(c, s, actions).handlers| == |s.handlers|
    decreases |actions|
  {
    if actions != [] { AbortedStays(c, Step(c, s, actions[0]), actions[1..]); }
  }

  /** The server is down before any upload was accepted. */
  ghost predicate ServerGone(s: State) {
    && !s.shutdownTx
    && (s.client.Ready? || s.client.Waiting? || s.client.Aborted?)
    && (forall i :: 0 <= i < |s.handlers| ==> !Active(s.handlers[i]))
    && (s.client.Waiting? && s.handlers != [] ==> s.handlers[|s.handlers| - 1].stage != Answered(true))
  }

  /** Then no later attempt is served: the receiver's file and metadata stay, and no key is registered. */
  lemma {:induction false} NothingAfterShutdown(c: Config, s: State, actions: seq<Action>)
    requires ServerGone(s)
    ensures var t := Run(c, s, actions);
            t.dest == s.dest && t.temp == s.temp && t.metadata == s.metadata && t.dataKeys == s.dataKeys
    decreases |actions|
  {
    if actions != [] {
      var t := Step(c, s, actions[0]);
      assert ServerGone(t) by {
        if actions[0].StartAttempt? && Enabled(c, s, actions[0]) {
          assert t.handlers[|s.handlers|].stage.Dropped?;
        }
      }
      NothingAfterShutdown(c, t, actions[1..]);
    }
  }

  /** With overlapping handlers the abandoned one can overwrite the destination after the
      answer the client trusted. */
  lemma OverlapBreaks(c: Config, s: State) returns (actions: seq<Action>)
    requires c.overlap && c.cipher != [] && Initial(s)
    ensures !Guarantee(c, Run(c, s, actions))
  {
    var first := ReceiveAll(c, s);
    RunSnoc(c, s, first, UploadReply(false));
    actions := first + [UploadReply(false)];
    var t := Run(c, s, actions);
    var second := ReceiveAll(c, t);
    RunConcat(c, s, actions, second);
    actions := actions + second;
    actions := Finish(c, s, actions);
  }

  lemma Finish(c: Config, s: State, before: seq<Action>) returns (actions: seq<Action>)
    requires c.cipher != []
    requires var t := Run(c, s, before);
             && t.client.Waiting? && t.temp == Some(c.cipher) && |t.handlers| == 2 && t.shutdownTx
             && (forall i :: 0 <= i < 2 ==> t.handlers[i].stage == Receiving(1) && t.handlers[i].chunks == [c.cipher])
    ensures !Guarantee(c, Run(c, s, actions))
  {
    actions := before;
    RunSnoc(c, s, actions, CopyBytes(1, |c.cipher|));
    actions := actions + [CopyBytes(1, |c.cipher|)];
    RunSnoc(c, s, actions, RegisterMetadata(1, true, true));
    actions := actions + [RegisterMetadata(1, true, true)];
    RunSnoc(c, s, actions, UploadReply(true));
    actions := actions + [UploadReply(true)];
    RunSnoc(c, s, actions, CopyBytes(0, 0));
    actions := actions + [CopyBytes(0, 0)];
    RunSnoc(c, s, actions, Shutdown(true, true));
    actions := actions + [Shutdown(true, true)];
    RunSnoc(c, s, actions, RegisterKey(true, true));
    actions := actions + [RegisterKey(true, true)];
    assert c.id in Run(c, s, actions).dataKeys;
  }

  /** The guarantee holds in every run exactly when handlers do not overlap. */
  lemma GuaranteeIff(c: Config, s: State)
    requires Initial(s) && c.cipher != []
    ensures (forall actions :: Guarantee(c, Run(c, s, actions))) <==> !c.overlap
  {
    if c.overlap {
      var actions := OverlapBreaks(c, s);
    } else {
      forall actions ensures Guarantee(c, Run(c, s, actions)) {
        RegisteredImpliesDelivered(c, s, actions);
      }
    }
  }
}
