/** PutResultData and GetInputData on local directories: which key seals the files, when it is
    registered with the capsule manager, and that the registered key opens them again. */
module DataCapsuleProxy {
  import opened Octets
  import opened EncryptedFile
  import opened DirectoryTasks
  import opened DirectoryCrypto
  import Base64

  datatype ResultConfig = ResultConfig(scope: string, resourceUri: string, ancestorUuids: seq<string>)

  datatype PutRequest = PutRequest(dataKeyB64: string, hasLocalFs: bool, cmResult: ResultConfig)

  /** What CreateResultDataKey sends to the capsule manager. */
  datatype Registration =
    Registration(scope: string, resourceUri: string, dataKeyB64: string, ancestorUuids: seq<string>)

  datatype GetRequest = GetRequest(dataKeyB64: Option<string>, hasCmResource: bool, hasLocalFs: bool)

  datatype Reply = Pending | Rejected | Success

  class CapsuleManager {
    var registered: seq<Registration>

    constructor ()
      ensures registered == []
    {
      registered := [];
    }

    /** The manager may refuse, and its answer may be lost or late after it has recorded the key. */
    method CreateResultDataKey(body: Registration, recorded: bool, answered: bool) returns (ok: bool)
      modifies this
      ensures ok == (recorded && answered)
      ensures registered == if recorded then old(registered) + [body] else old(registered)
    {
      if recorded { registered := registered + [body]; }
      return recorded && answered;
    }
  }

  class Directory {
    var fs: FileSystem

    constructor ()
      ensures fs == EMPTY
    {
      fs := EMPTY;
    }
  }

  /** A fresh key when none is given, else the decoded one if it decodes. */
  function PutKey(request: PutRequest, random: Bytes): Option<Bytes> {
    if request.dataKeyB64 == "" then Some(random) else Base64.DecodeStandard(request.dataKeyB64)
  }

  /** The request gives this key, or gives none and this is the fresh one. */
  ghost predicate GivesKey(request: PutRequest, random: Bytes, key: Bytes) {
    if request.dataKeyB64 == "" then key == random else request.dataKeyB64 == Base64.Encode(Base64.Standard, key)
  }

  lemma PutKeyIs(request: PutRequest, random: Bytes, key: Bytes)
    requires GivesKey(request, random, key)
    ensures PutKey(request, random) == Some(key)
  {
    Base64.StandardRoundTrip(key);
  }

  /** Encrypts the source tree into `dest` and registers the key last. */
  method PutResultData(a: Aead, request: PutRequest, random: Bytes, src: FileSystem, ivs: map<Path, seq<Bytes>>,
                       order: seq<Path>, dest: Directory, schedule: seq<nat>, cm: CapsuleManager,
                       recorded: bool, answered: bool)
    returns (reply: Reply)
    requires ValidTree(src.files) && Enumerates(order, src.files) && IvsFor(ivs, src.files) && Fresh(dest.fs)
    modifies dest, cm
    ensures reply == Pending <==>
              && PutKey(request, random).Some? && request.hasLocalFs
              && EncryptToDir(a, PutKey(request, random).value, ivs, src, order, old(dest.fs), schedule) == Running
    ensures reply != Pending ==>
              (reply == Success <==>
                && PutKey(request, random).Some? && request.hasLocalFs
                && Present(src) && Encryptable(PutKey(request, random).value, src.files)
                && (request.cmResult.resourceUri != "" ==>
                      request.cmResult.scope != "" && request.cmResult.ancestorUuids != [] && recorded && answered))
    ensures reply == Success ==> Sealed(a, request, random, ivs, src.files, old(dest.fs), dest.fs)
    ensures reply == Success && request.cmResult.resourceUri != "" ==> cm.registered != old(cm.registered)
    ensures cm.registered != old(cm.registered) ==>
              && request.cmResult.resourceUri != "" && request.cmResult.scope != ""
              && request.cmResult.ancestorUuids != [] && recorded
              && Sealed(a, request, random, ivs, src.files, old(dest.fs), dest.fs)
    ensures forall key :: GivesKey(request, random, key) ==>
              && (reply == Success || cm.registered != old(cm.registered) ==>
                    IsEncryptionOf(a, key, ivs, src.files, dest.fs.files))
    ensures cm.registered != old(cm.registered) ==>
              var c := request.cmResult;
              && PutKey(request, random).Some?
              && cm.registered == old(cm.registered) +
                   [Registration(c.scope, c.resourceUri,
                                 Base64.Encode(Base64.Standard, PutKey(request, random).value), c.ancestorUuids)]
              && forall key :: GivesKey(request, random, key) ==>
                   cm.registered[|old(cm.registered)|].dataKeyB64 == Base64.Encode(Base64.Standard, key)
  {
    forall key | GivesKey(request, random, key) ensures PutKey(request, random) == Some(key) {
      PutKeyIs(request, random, key);
    }
    var dataKey := random;
    if request.dataKeyB64 != "" {
      var decoded := Base64.DecodeStandard(request.dataKeyB64);
      if decoded.None? { return Rejected; }
      dataKey := decoded.value;
    }
    if !request.hasLocalFs { return Rejected; }
    EncryptToDirIff(a, dataKey, ivs, src, order, dest.fs, schedule);
    var outcome := EncryptToDir(a, dataKey, ivs, src, order, dest.fs, schedule);
    if Present(src) {
      var jobs := EncryptJobs(a, dataKey, ivs, order, src.files);
      dest.fs := Run(jobs, Start(dest.fs, jobs), schedule).fs;
    }
    if outcome.Running? { return Pending; }
    if outcome.Threw? { return Rejected; }

    var c := request.cmResult;
    if c.resourceUri != "" {
      if c.scope == "" { return Rejected; }
      if |c.ancestorUuids| == 0 { return Rejected; }
      var body := Registration(c.scope, c.resourceUri, Base64.Encode(Base64.Standard, dataKey), c.ancestorUuids);
      var ok := cm.CreateResultDataKey(body, recorded, answered);
      if !ok { return Rejected; }
    }
    return Success;
  }

  /** Every file is sealed under the key of the request, in a destination that exists unless it did not
      before and there was nothing to seal. */
  ghost predicate Sealed(a: Aead, request: PutRequest, random: Bytes, ivs: map<Path, seq<Bytes>>, files: Files,
                         before: FileSystem, after: FileSystem)
    requires ValidTree(files) && IvsFor(ivs, files)
  {
    && PutKey(request, random).Some?
    && Encryptable(PutKey(request, random).value, files)
    && IsEncryptionOf(a, PutKey(request, random).value, ivs, files, after.files)
    && (Present(after) <==> files != map[] || Present(before))
  }

  /** The key in the request wins; else the first key the capsule manager answers. */
  function GetKey(request: GetRequest, cmKeys: seq<string>): Option<Bytes> {
    match request.dataKeyB64
    case Some(k) => Base64.DecodeStandard(k)
    case None => if request.hasCmResource && cmKeys != [] then Base64.DecodeStandard(cmKeys[0]) else None
  }

  method GetInputData(a: Aead, request: GetRequest, cmKeys: seq<string>, src: FileSystem, order: seq<Path>,
                      dest: Directory, schedule: seq<nat>)
    returns (reply: Reply)
    requires ValidTree(src.files) && Representable(src.files) && Enumerates(order, src.files) && Fresh(dest.fs)
    modifies dest
    ensures reply == Pending <==>
              && GetKey(request, cmKeys).Some? && request.hasLocalFs
              && DecryptToDir(a, GetKey(request, cmKeys).value, src, order, old(dest.fs), schedule) == Running
    ensures reply != Pending ==>
              (reply == Success <==>
                && GetKey(request, cmKeys).Some? && request.hasLocalFs
                && Present(src) && Decryptable(a, GetKey(request, cmKeys).value, src.files))
    ensures reply == Success ==>
              var key := GetKey(request, cmKeys).value;
              && DecryptToDir(a, key, src, order, old(dest.fs), schedule) == Returned(dest.fs)
              && KeepsAgreeing(a, key, src.files, dest.fs.files)
              && (IsDecryptionOf(a, key, src.files, dest.fs.files) <==> SharersAgree(a, key, src.files))
  {
    var dataKey := [];
    if request.dataKeyB64.Some? {
      var decoded := Base64.DecodeStandard(request.dataKeyB64.value);
      if decoded.None? { return Rejected; }
      dataKey := decoded.value;
    } else if request.hasCmResource {
      if |cmKeys| == 0 { return Rejected; }
      var decoded := Base64.DecodeStandard(cmKeys[0]);
      if decoded.None? { return Rejected; }
      dataKey := decoded.value;
    } else {
      return Rejected;
    }
    if !request.hasLocalFs { return Rejected; }
    DecryptToDirIff(a, dataKey, src, order, dest.fs, schedule);
    var outcome := DecryptToDir(a, dataKey, src, order, dest.fs, schedule);
    if Present(src) {
      var jobs := DecryptJobs(a, dataKey, order, src.files);
      dest.fs := Run(jobs, Start(dest.fs, jobs), schedule).fs;
    }
    match outcome
    case Running => reply := Pending;
    case Threw => reply := Rejected;
    case Returned(_) => reply := Success;
  }

  /** Whoever is given the key that sealed a tree, by request or from the capsule manager, gets the tree
      back from what PutResultData wrote, under every interleaving, if there is such a place. */
  lemma RegisteredKeyRecovers(a: Aead, key: Bytes, files: Files, ivs: map<Path, seq<Bytes>>, present: bool,
                              out: FileSystem, get: GetRequest, cmKeys: seq<string>,
                              order: seq<Path>, dest: FileSystem, schedule: seq<nat>)
    requires ValidTree(files) && IvsFor(ivs, files) && SmallEnough(files) && Encryptable(key, files)
    requires IsEncryptionOf(a, key, ivs, files, out.files) && (Present(out) <==> files != map[] || present)
    requires var keyB64 := Base64.Encode(Base64.Standard, key);
             get.dataKeyB64 == Some(keyB64) || (get.dataKeyB64 == None && get.hasCmResource && [keyB64] <= cmKeys)
    requires Enumerates(order, out.files) && Fresh(dest)
    ensures GetKey(get, cmKeys) == Some(key)
    ensures ValidTree(out.files) && Representable(out.files)
    ensures Restores(DecryptToDir(a, key, out, order, dest, schedule), files, files != map[] || present)
  {
    Base64.StandardRoundTrip(key);
    DecryptedRun(a, key, ivs, files, out, order, dest, schedule);
  }

  /** Giving GetInputData the key of a sealed tree. */
  method GetSealed(a: Aead, ghost key: Bytes, keyB64: string, ghost files: Files, ghost ivs: map<Path, seq<Bytes>>,
                   ghost present: bool, out: FileSystem, order: seq<Path>, dest: Directory, schedule: seq<nat>)
    returns (reply: Reply)
    requires ValidTree(files) && IvsFor(ivs, files) && SmallEnough(files) && Encryptable(key, files)
    requires IsEncryptionOf(a, key, ivs, files, out.files) && (Present(out) <==> files != map[] || present)
    requires keyB64 == Base64.Encode(Base64.Standard, key) && Enumerates(order, out.files) && Fresh(dest.fs)
    modifies dest
    ensures if files != map[] || present
            then reply == Pending || (reply == Success && dest.fs.files == files)
            else reply == Rejected
  {
    var get := GetRequest(Some(keyB64), false, true);
    RegisteredKeyRecovers(a, key, files, ivs, present, out, get, [], order, dest.fs, schedule);
    EncryptionRestores(a, key, ivs, files, out.files);
    reply := GetInputData(a, get, [], out, order, dest, schedule);
  }

  /** Whenever a call of PutResultData has put a key on record, even if its answer was lost, giving
      that record's key to GetInputData brings the source tree back, unless there was nothing to seal
      and no destination: then the place to read from does not exist and the call is refused. */
  method PutThenGet(a: Aead, put: PutRequest, random: Bytes, src: FileSystem, ivs: map<Path, seq<Bytes>>,
                    walk: Files -> seq<Path>, store: Directory, schedule: seq<nat>, cm: CapsuleManager,
                    recorded: bool, answered: bool, restored: Directory, schedule': seq<nat>)
    returns (reply: Reply)
    requires ValidTree(src.files) && IvsFor(ivs, src.files) && SmallEnough(src.files)
    requires forall tree :: Enumerates(walk(tree), tree)
    requires store != restored && Fresh(store.fs) && Fresh(restored.fs)
    modifies store, cm, restored
    ensures cm.registered != old(cm.registered) ==>
              if src.files != map[] || Present(old(store.fs))
              then reply == Pending || (reply == Success && restored.fs.files == src.files)
              else reply == Rejected
  {
    var before := |cm.registered|;
    ghost var present := Present(store.fs);
    reply := PutResultData(a, put, random, src, ivs, walk(src.files), store, schedule, cm, recorded, answered);
    if |cm.registered| == before { return; }
    reply := GetSealed(a, PutKey(put, random).value, cm.registered[before].dataKeyB64, src.files, ivs, present,
                       store.fs, walk(store.fs.files), restored, schedule');
  }

  /** A caller that gave its own key gets the tree back with the very text it gave. */
  method PutOwnKeyThenGet(a: Aead, put: PutRequest, ghost key: Bytes, random: Bytes, src: FileSystem,
                          ivs: map<Path, seq<Bytes>>, walk: Files -> seq<Path>, store: Directory, schedule: seq<nat>,
                          cm: CapsuleManager, recorded: bool, answered: bool, restored: Directory, schedule': seq<nat>)
    returns (putReply: Reply, reply: Reply)
    requires put.dataKeyB64 != "" && put.dataKeyB64 == Base64.Encode(Base64.Standard, key)
    requires ValidTree(src.files) && IvsFor(ivs, src.files) && SmallEnough(src.files)
    requires forall tree :: Enumerates(walk(tree), tree)
    requires store != restored && Fresh(store.fs) && Fresh(restored.fs)
    modifies store, cm, restored
    ensures putReply == Success ==>
              && IsEncryptionOf(a, key, ivs, src.files, store.fs.files)
              && if src.files != map[] || Present(old(store.fs))
                 then reply == Pending || (reply == Success && restored.fs.files == src.files)
                 else reply == Rejected
    ensures cm.registered != old(cm.registered) ==>
              && |cm.registered| == |old(cm.registered)| + 1
              && cm.registered[|old(cm.registered)|].dataKeyB64 == put.dataKeyB64
  {
    ghost var present := Present(store.fs);
    assert GivesKey(put, random, key);
    PutKeyIs(put, random, key);
    putReply := PutResultData(a, put, random, src, ivs, walk(src.files), store, schedule, cm, recorded, answered);
    reply := putReply;
    if putReply == Success {
      reply := GetSealed(a, key, put.dataKeyB64, src.files, ivs, present, store.fs, walk(store.fs.files), restored,
                         schedule');
    }
  }

  /** An empty source directory and a store that does not exist: the key is registered, the answer is
      OK, and the registered key cannot be used to read anything back. */
  method EmptySourceLost(a: Aead, put: PutRequest, random: Bytes, cm: CapsuleManager)
    returns (putReply: Reply, getReply: Reply)
    requires PutKey(put, random).Some? && put.hasLocalFs
    requires put.cmResult.resourceUri != "" && put.cmResult.scope != "" && put.cmResult.ancestorUuids != []
    modifies cm
    ensures putReply == Success && getReply == Rejected
    ensures cm.registered != old(cm.registered)
  {
    var store := new Directory();
    var restored := new Directory();
    var src := FileSystem({[]}, map[]);
    EmptyTreeLost(a, PutKey(put, random).value, restored.fs);
    putReply := PutResultData(a, put, random, src, map[], [], store, [], cm, true, true);
    assert forall q :: q in store.fs.files ==> GoesTo(src.files, q);
    assert store.fs.files == map[];
    var get := GetRequest(Some(Base64.Encode(Base64.Standard, PutKey(put, random).value)), false, true);
    getReply := GetInputData(a, get, [], store.fs, [], restored, []);
  }
}
