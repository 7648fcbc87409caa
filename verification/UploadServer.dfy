/** The receiver's request handlers: one multipart upload, and the one-shot shutdown. */
module UploadServer {
  import opened Octets

  /** A multipart field as it arrives. A broken stream delivers its chunks and then fails. */
  datatype Field =
    | StorePath(uri: Option<Uri>)
    | FilePart(filename: Option<string>, chunks: seq<Bytes>, broken: bool)
    | DomainData(parses: bool)
    | OtherField

  /** The query of a `dm` output URI; None above stands for any other text. */
  datatype Uri = Uri(datasourceId: string, id: string, uri: string)

  /** The parts of a request that decide its outcome: the last of each kind. */
  datatype Parts = Parts(storePath: Option<Option<Uri>>, filename: Option<string>, domainData: bool)

  function Gather(fields: seq<Field>): Parts {
    if fields == [] then Parts(None, None, false)
    else
      var p := Gather(fields[..|fields| - 1]);
      match fields[|fields| - 1]
      case StorePath(uri) => p.(storePath := Some(uri))
      case FilePart(name, _, _) => p.(filename := name)
      case DomainData(_) => p.(domainData := true)
      case OtherField => p
  }

  /** Every stream ends well, every file has a name and the domain data parses. */
  predicate Readable(f: Field) {
    match f
    case FilePart(name, _, broken) => name.Some? && !broken
    case DomainData(parses) => parses
    case _ => true
  }

  /** What the last file part of that name carried. */
  function LastUpload(fields: seq<Field>, name: string): Option<Bytes> {
    if fields == [] then None
    else match fields[|fields| - 1]
      case FilePart(n, chunks, _) =>
        if n == Some(name) then Some(Flatten(chunks)) else LastUpload(fields[..|fields| - 1], name)
      case _ => LastUpload(fields[..|fields| - 1], name)
  }

  /** The request names a place to store and carries a file and its description. */
  predicate Named(fields: seq<Field>) {
    var p := Gather(fields);
    p.storePath.Some? && p.storePath.value.Some? && p.filename.Some? && p.domainData
  }

  function Target(fields: seq<Field>): Uri
    requires Named(fields)
  {
    Gather(fields).storePath.value.value
  }

  function UploadOf(fields: seq<Field>): Option<Bytes>
    requires Named(fields)
  {
    LastUpload(fields, Gather(fields).filename.value)
  }

  /** Everything up to and with the copy to the data source goes well. */
  predicate Storable(fields: seq<Field>, datasource: bool, copied: nat) {
    && (forall i :: 0 <= i < |fields| ==> Readable(fields[i]))
    && Named(fields) && datasource
    && UploadOf(fields).Some? && |UploadOf(fields).value| <= copied
  }

  /******* The same by the positions of the fields *******/

  /** Field `i` is the last file part of the request. */
  ghost predicate LastFile(fields: seq<Field>, i: int) {
    0 <= i < |fields| && fields[i].FilePart? && forall k :: i < k < |fields| ==> !fields[k].FilePart?
  }

  /** Field `j` is the last store path of the request. */
  ghost predicate LastStore(fields: seq<Field>, j: int) {
    0 <= j < |fields| && fields[j].StorePath? && forall k :: j < k < |fields| ==> !fields[k].StorePath?
  }

  lemma {:induction false} GatherIs(fields: seq<Field>)
    ensures forall i :: LastFile(fields, i) ==>
              && Gather(fields).filename == fields[i].filename
              && (fields[i].filename.Some? ==>
                    LastUpload(fields, fields[i].filename.value) == Some(Flatten(fields[i].chunks)))
    ensures forall j :: LastStore(fields, j) ==> Gather(fields).storePath == Some(fields[j].uri)
    ensures Gather(fields).filename.Some? ==> exists i :: LastFile(fields, i)
    ensures Gather(fields).storePath.Some? ==> exists j :: LastStore(fields, j)
    ensures Gather(fields).domainData <==> exists k :: 0 <= k < |fields| && fields[k].DomainData?
    decreases |fields|
  {
    if fields != [] {
      var n := |fields| - 1;
      var front := fields[..n];
      GatherIs(front);
      assert forall i :: 0 <= i < n ==> front[i] == fields[i];
      assert forall i :: LastFile(fields, i) ==> if fields[n].FilePart? then i == n else LastFile(front, i);
      assert forall j :: LastStore(fields, j) ==> if fields[n].StorePath? then j == n else LastStore(front, j);
      if fields[n].FilePart? { assert LastFile(fields, n); }
      if fields[n].StorePath? { assert LastStore(fields, n); }
      if !fields[n].FilePart? && exists i :: LastFile(front, i) {
        var i :| LastFile(front, i);
        assert LastFile(fields, i);
      }
      if !fields[n].StorePath? && exists j :: LastStore(front, j) {
        var j :| LastStore(front, j);
        assert LastStore(fields, j);
      }
    }
  }

  /** A request can be stored exactly when every file part has a name and ends well, every description
      parses, there is a description, a file part and a store path, the last store path is a `dm` URI
      whose data source is known, and the copy has room for the last file part. */
  lemma StorableIff(fields: seq<Field>, datasource: bool, copied: nat)
    ensures Storable(fields, datasource, copied) <==>
            && (forall k :: 0 <= k < |fields| ==>
                  && (fields[k].FilePart? ==> fields[k].filename.Some? && !fields[k].broken)
                  && (fields[k].DomainData? ==> fields[k].parses))
            && (exists k :: 0 <= k < |fields| && fields[k].DomainData?)
            && (exists i :: LastFile(fields, i) && |Flatten(fields[i].chunks)| <= copied)
            && (exists j :: LastStore(fields, j) && fields[j].uri.Some?)
            && datasource
  {
    GatherIs(fields);
  }

  /** What is stored, and where, by the positions of the last file part and the last store path. */
  lemma PartsAre(fields: seq<Field>)
    requires Named(fields)
    ensures forall i, j :: LastFile(fields, i) && LastStore(fields, j) ==>
              fields[j].uri == Some(Target(fields)) && UploadOf(fields) == Some(Flatten(fields[i].chunks))
  {
    GatherIs(fields);
  }

  class Server {
    var temp: map<string, Bytes>        // the temp directory, by file name
    var store: map<string, Bytes>       // the data source, by relative uri
    var metadata: map<string, string>   // registered domain data: id to uri
    var shutdownTx: bool                // the shutdown sender is still in its slot
    var shutdowns: nat                  // shutdown signals sent

    constructor ()
      ensures temp == map[] && store == map[] && metadata == map[] && shutdownTx && shutdowns == 0
    {
      temp, store, metadata, shutdownTx, shutdowns := map[], map[], map[], true, 0;
    }

    /** Writes one file part to its temp file, from scratch whatever the file held. */
    method ReceiveFile(name: string, chunks: seq<Bytes>)
      modifies this`temp
      ensures temp == old(temp)[name := Flatten(chunks)]
    {
      temp := temp[name := []];
      assert chunks[..0] == [];
      for i := 0 to |chunks|
        invariant temp == old(temp)[name := Flatten(chunks[..i])]
      {
        assert chunks[..i + 1] == chunks[..i] + [chunks[i]];
        FlattenConcat(chunks[..i], [chunks[i]]);
        FlattenOne(chunks[i]);
        temp := temp[name := temp[name] + chunks[i]];
      }
      assert chunks[..|chunks|] == chunks;
    }

    /** Whatever earlier requests left behind, an accepted upload stores exactly the bytes of its
        own last file part under the uri it names and registers that uri under its id. The metadata
        service may record the entry and its answer be lost: then the upload is refused, but what
        is registered is complete all the same. */
    method HandleUpload(fields: seq<Field>, datasource: bool, copied: nat, recorded: bool, acknowledged: bool)
      returns (ok: bool)
      modifies this`temp, this`store, this`metadata
      ensures ok <==> Storable(fields, datasource, copied) && recorded && acknowledged
      ensures metadata ==
                if Storable(fields, datasource, copied) && recorded then
                  old(metadata)[Target(fields).id := Target(fields).uri]
                else old(metadata)
      ensures Storable(fields, datasource, copied) ==>
                store == old(store)[Target(fields).uri := UploadOf(fields).value]
      ensures ok ==> forall i, j :: LastFile(fields, i) && LastStore(fields, j) ==>
                && fields[j].uri.Some?
                && store == old(store)[fields[j].uri.value.uri := Flatten(fields[i].chunks)]
                && metadata == old(metadata)[fields[j].uri.value.id := fields[j].uri.value.uri]
      ensures store != old(store) ==>
                && Named(fields) && UploadOf(fields).Some?
                && var upload := UploadOf(fields).value;
                   store == old(store)[Target(fields).uri := upload[..Min(copied, |upload|)]]
    {
      var readable, storePath, tempName, domainData := ReceiveFields(fields);
      if !readable { return false; }
      if storePath.None? || tempName.None? || !domainData { return false; }
      if storePath.value.None? { return false; }
      var target := storePath.value.value;
      if !datasource { return false; }
      var received := temp[tempName.value];
      assert received == UploadOf(fields).value;
      PartsAre(fields);
      store := store[target.uri := received[..Min(copied, |received|)]];
      if copied < |received| { return false; }
      assert received[..|received|] == received;
      if recorded { metadata := metadata[target.id := target.uri]; }
      return recorded && acknowledged;
    }

    /** Reads the request to its end, or to the first part that cannot be read. */
    method ReceiveFields(fields: seq<Field>)
      returns (readable: bool, storePath: Option<Option<Uri>>, tempName: Option<string>, domainData: bool)
      modifies this`temp
      ensures readable <==> forall i :: 0 <= i < |fields| ==> Readable(fields[i])
      ensures readable ==> Gather(fields) == Parts(storePath, tempName, domainData)
      ensures readable && tempName.Some? ==>
                tempName.value in temp && LastUpload(fields, tempName.value) == Some(temp[tempName.value])
    {
      readable, storePath, tempName, domainData := false, None, None, false;
      assert fields[..0] == [];
      for i := 0 to |fields|
        invariant !readable
        invariant forall j :: 0 <= j < i ==> Readable(fields[j])
        invariant Gather(fields[..i]) == Parts(storePath, tempName, domainData)
        invariant tempName.Some? ==>
                    tempName.value in temp && LastUpload(fields[..i], tempName.value) == Some(temp[tempName.value])
      {
        assert fields[..i + 1][..i] == fields[..i];
        match fields[i]
        case StorePath(uri) => storePath := Some(uri);
        case FilePart(name, chunks, broken) =>
          if name.None? { return; }
          ReceiveFile(name.value, chunks);
          if broken { return; }
          tempName := name;
        case DomainData(parses) =>
          if !parses { return; }
          domainData := true;
        case OtherField =>
      }
      assert fields[..|fields|] == fields;
      readable := true;
    }

    /** The first shutdown request is accepted, every later one refused. */
    method Shutdown() returns (ok: bool)
      modifies this`shutdownTx, this`shutdowns
      ensures ok == old(shutdownTx) && !shutdownTx
      ensures shutdowns == old(shutdowns) + (if ok then 1 else 0)
    {
      if shutdownTx {
        shutdownTx, shutdowns := false, shutdowns + 1;
        return true;
      }
      return false;
    }
  }
}
