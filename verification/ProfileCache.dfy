/**
 The on-disk cache of remote profile bodies. A write goes through temporary files and renames, and
 may be cut short at any file step; what a later read sees is stated for every such point.
 */
module ProfileCache {
  import opened Common

  const PROFILE_ID_MAX_BYTES := 64
  const PROFILE_BODY_MAX_BYTES := 1024 * 1024

  datatype Entry = Entry(
    url: string, fetchedAtMs: nat, bodyBytes: nat, etag: Option<string>, lastModified: Option<string>)

  /** The sidecar serialization, left abstract. */
  datatype Codec = Codec(encode: Entry -> bytes, decode: bytes -> Option<Entry>)

  ghost predicate Faithful(codec: Codec) {
    forall e :: codec.decode(codec.encode(e)) == Some(e)
  }

  datatype StoreError = InvalidId | BodyTooLarge | MetadataMalformed | MetadataMismatch

  datatype Outcome<T> = Ok(value: T) | Err(error: StoreError)

  /** File names of the profiles directory and their contents. */
  type Disk = map<string, bytes>

  // ----- Names -----

  predicate IsSafeChar(c: char) {
    'a' <= c <= 'z' || 'A' <= c <= 'Z' || '0' <= c <= '9' || c == '-' || c == '_'
  }

  predicate IsPathSafe(id: string) {
    1 <= |id| <= PROFILE_ID_MAX_BYTES && forall i :: 0 <= i < |id| ==> IsSafeChar(id[i])
  }

  function BodyName(id: string): string { id + ".yaml" }
  function BodyTmpName(id: string): string { id + ".yaml.tmp" }
  function MetaName(id: string): string { id + ".meta.toml" }
  function MetaTmpName(id: string): string { id + ".meta.meta.toml.tmp" }

  function NamesOf(id: string): set<string> {
    {BodyName(id), BodyTmpName(id), MetaName(id), MetaTmpName(id)}
  }

  /** The part of a name before its first dot. */
  ghost function Stem(name: string): string {
    if name == [] || name[0] == '.' then [] else [name[0]] + Stem(name[1..])
  }

  lemma {:induction false} StemIsId(id: string, kind: string)
    requires (forall i :: 0 <= i < |id| ==> id[i] != '.') && kind != [] && kind[0] == '.'
    ensures Stem(id + kind) == id
  {
    if id != [] {
      assert (id + kind)[1..] == id[1..] + kind;
      StemIsId(id[1..], kind);
    } else {
      assert id + kind == kind;
    }
  }

  lemma KindsDiffer(id: string)
    requires IsPathSafe(id)
    ensures BodyName(id) != MetaName(id) && BodyName(id) != BodyTmpName(id) && BodyName(id) != MetaTmpName(id)
    ensures MetaName(id) != BodyTmpName(id) && MetaName(id) != MetaTmpName(id)
  {
    assert |".yaml"| == 5 && |".yaml.tmp"| == 9 && |".meta.toml"| == 10 && |".meta.meta.toml.tmp"| == 19;
  }

  lemma NamesTellTheId(id: string)
    requires IsPathSafe(id)
    ensures forall n :: n in NamesOf(id) ==> Stem(n) == id
  {
    StemIsId(id, ".yaml");
    StemIsId(id, ".yaml.tmp");
    StemIsId(id, ".meta.toml");
    StemIsId(id, ".meta.meta.toml.tmp");
  }

  /** Distinct ids share no file. */
  lemma IdsShareNothing(a: string, b: string)
    requires IsPathSafe(a) && IsPathSafe(b) && a != b
    ensures NamesOf(a) !! NamesOf(b)
  {
    NamesTellTheId(a);
    NamesTellTheId(b);
  }

  // ----- Reading -----

  function ReadMetadata(codec: Codec, disk: Disk, id: string): Outcome<Option<Entry>> {
    if !IsPathSafe(id) then Err(InvalidId)
    else if MetaName(id) !in disk then Ok(None)
    else
      var entry := codec.decode(disk[MetaName(id)]);
      if entry.None? then Err(MetadataMalformed) else Ok(entry)
  }

  /** The body the sidecar, if there is one, vouches for by its length. */
  function Vouched(body: bytes, meta: Outcome<Option<Entry>>): Outcome<Option<bytes>> {
    if meta.Err? then Err(meta.error)
    else if meta.value.Some? && meta.value.value.bodyBytes != |body| then Err(MetadataMismatch)
    else Ok(Some(body))
  }

  function Read(codec: Codec, disk: Disk, id: string): Outcome<Option<bytes>> {
    if !IsPathSafe(id) then Err(InvalidId)
    else if BodyName(id) !in disk then Ok(None)
    else if |disk[BodyName(id)]| > PROFILE_BODY_MAX_BYTES then Err(BodyTooLarge)
    else Vouched(disk[BodyName(id)], ReadMetadata(codec, disk, id))
  }

  /** A body that can be read at all, and a sidecar that decodes to `entry`. */
  ghost predicate HasBoth(codec: Codec, disk: Disk, id: string, body: bytes, entry: Option<Entry>) {
    && IsPathSafe(id) && BodyName(id) in disk && disk[BodyName(id)] == body && |body| <= PROFILE_BODY_MAX_BYTES
    && MetaName(id) in disk && codec.decode(disk[MetaName(id)]) == entry
  }

  /** A mismatch is reported exactly for a sidecar of another length, malformation for one that does not decode. */
  lemma SidecarErrors(codec: Codec, disk: Disk, id: string)
    ensures Read(codec, disk, id) == Err(MetadataMismatch) <==>
      exists body, entry :: HasBoth(codec, disk, id, body, Some(entry)) && entry.bodyBytes != |body|
    ensures Read(codec, disk, id) == Err(MetadataMalformed) <==> exists body :: HasBoth(codec, disk, id, body, None)
  {
    if Read(codec, disk, id) == Err(MetadataMismatch) {
      var body, entry := disk[BodyName(id)], codec.decode(disk[MetaName(id)]).value;
      assert HasBoth(codec, disk, id, body, Some(entry)) && entry.bodyBytes != |body|;
    }
    if Read(codec, disk, id) == Err(MetadataMalformed) {
      assert HasBoth(codec, disk, id, disk[BodyName(id)], None);
    }
  }

  // ----- Writing -----

  datatype Request = Request(
    id: string, body: bytes, url: string, nowMs: nat, etag: Option<string>, lastModified: Option<string>)

  /** Where the process stops: before a file step, inside a file write after `n` bytes, or not at all. */
  datatype Stop =
    | BeforeWriting
    | InBodyTmp(n: nat)
    | BeforeBodyRename
    | AfterBodyRename
    | InMetaTmp(n: nat)
    | BeforeMetaRename
    | Never

  function Prefix(s: bytes, n: nat): bytes {
    if n <= |s| then s[..n] else s
  }

  /** Validators of the response, or those already stored when it carried none. */
  function NewEntry(codec: Codec, disk: Disk, r: Request): Outcome<Entry> {
    var given := Entry(r.url, r.nowMs, |r.body|, r.etag, r.lastModified);
    if r.etag.Some? || r.lastModified.Some? then Ok(given)
    else
      var previous := ReadMetadata(codec, disk, r.id);
      if previous.Err? then Err(previous.error)
      else if previous.value.None? then Ok(given)
      else Ok(given.(etag := previous.value.value.etag, lastModified := previous.value.value.lastModified))
  }

  /** A validator came with the response, or the sidecar it would be kept from can be read. */
  predicate CanFinish(codec: Codec, disk: Disk, r: Request) {
    r.etag.Some? || r.lastModified.Some? || ReadMetadata(codec, disk, r.id).Ok?
  }

  predicate Refused(r: Request) {
    !IsPathSafe(r.id) || |r.body| > PROFILE_BODY_MAX_BYTES
  }

  function WithBody(disk: Disk, r: Request): Disk {
    disk[BodyTmpName(r.id) := r.body][BodyName(r.id) := r.body] - {BodyTmpName(r.id)}
  }

  function WithMeta(codec: Codec, disk: Disk, r: Request, entry: Entry): Disk {
    disk[MetaTmpName(r.id) := codec.encode(entry)][MetaName(r.id) := codec.encode(entry)] - {MetaTmpName(r.id)}
  }

  /** The disk a write leaves behind when it stops where `stop` says. */
  function AfterWrite(codec: Codec, disk: Disk, r: Request, stop: Stop): Disk {
    if Refused(r) || stop.BeforeWriting? then disk
    else if stop.InBodyTmp? then disk[BodyTmpName(r.id) := Prefix(r.body, stop.n)]
    else if stop.BeforeBodyRename? then disk[BodyTmpName(r.id) := r.body]
    else
      var renamed := WithBody(disk, r);
      var entry := NewEntry(codec, renamed, r);
      if stop.AfterBodyRename? || entry.Err? then renamed
      else if stop.InMetaTmp? then renamed[MetaTmpName(r.id) := Prefix(codec.encode(entry.value), stop.n)]
      else if stop.BeforeMetaRename? then renamed[MetaTmpName(r.id) := codec.encode(entry.value)]
      else WithMeta(codec, renamed, r, entry.value)
  }

  predicate BodyReplaced(r: Request, stop: Stop) {
    !Refused(r) && (stop.AfterBodyRename? || stop.InMetaTmp? || stop.BeforeMetaRename? || stop.Never?)
  }

  function AfterRemove(disk: Disk, id: string, bodyOnly: bool): Disk {
    if !IsPathSafe(id) then disk
    else if bodyOnly then disk - {BodyName(id)}
    else disk - {BodyName(id)} - {MetaName(id)}
  }

  class ProfileStore {
    const codec: Codec
    var disk: Disk

    constructor (codec: Codec)
      ensures this.codec == codec && disk == map[]
    {
      this.codec := codec;
      disk := map[];
    }

    method ReadBody(id: string) returns (r: Outcome<Option<bytes>>)
      ensures r == Read(codec, disk, id)
    {
      if !IsPathSafe(id) {
        return Err(InvalidId);
      }
      if BodyName(id) !in disk {
        return Ok(None);
      }
      var body := disk[BodyName(id)];
      if |body| > PROFILE_BODY_MAX_BYTES {
        return Err(BodyTooLarge);
      }
      var meta := ReadMetadata(codec, disk, id);
      if meta.Err? {
        return Err(meta.error);
      }
      if meta.value.Some? && meta.value.value.bodyBytes != |body| {
        return Err(MetadataMismatch);
      }
      return Ok(Some(body));
    }

    /** `done` is false when the process stopped on the way. */
    method WriteFull(r: Request, stop: Stop) returns (done: bool, result: Outcome<()>)
      modifies `disk
      ensures disk == AfterWrite(codec, old(disk), r, stop)
      ensures done && result.Ok? ==> stop.Never? && !Refused(r)
      ensures stop.Never? ==> done && (result.Ok? <==> !Refused(r) && CanFinish(codec, old(disk), r))
    {
      result := Ok(());
      if !IsPathSafe(r.id) {
        return true, Err(InvalidId);
      }
      if |r.body| > PROFILE_BODY_MAX_BYTES {
        return true, Err(BodyTooLarge);
      }
      done := false;
      if stop.BeforeWriting? {
        return;
      }
      if stop.InBodyTmp? {
        disk := disk[BodyTmpName(r.id) := Prefix(r.body, stop.n)];
        return;
      }
      disk := disk[BodyTmpName(r.id) := r.body];
      if stop.BeforeBodyRename? {
        return;
      }
      disk := disk[BodyName(r.id) := r.body] - {BodyTmpName(r.id)};
      if stop.AfterBodyRename? {
        return;
      }
      NewEntryIff(codec, old(disk), r);
      var entry := NewEntry(codec, disk, r);
      if entry.Err? {
        return true, Err(entry.error);
      }
      var serialized := codec.encode(entry.value);
      if stop.InMetaTmp? {
        disk := disk[MetaTmpName(r.id) := Prefix(serialized, stop.n)];
        return;
      }
      disk := disk[MetaTmpName(r.id) := serialized];
      if stop.BeforeMetaRename? {
        return;
      }
      disk := disk[MetaName(r.id) := serialized] - {MetaTmpName(r.id)};
      done := true;
    }

    /** Missing files are not an error; `bodyOnly` stops after the first removal. */
    method RemoveCached(id: string, bodyOnly: bool) returns (result: Outcome<()>)
      modifies `disk
      ensures disk == AfterRemove(old(disk), id, bodyOnly)
      ensures result.Err? <==> !IsPathSafe(id)
    {
      if !IsPathSafe(id) {
        return Err(InvalidId);
      }
      disk := disk - {BodyName(id)};
      if !bodyOnly {
        disk := disk - {MetaName(id)};
      }
      result := Ok(());
    }
  }

  // ----- One write, stopped anywhere -----

  ghost predicate SameFiles(a: Disk, b: Disk, names: set<string>) {
    forall n :: n in names ==> (n in a <==> n in b) && (n in a ==> a[n] == b[n])
  }

  /** Which of the two files a reader looks at changes when. */
  lemma FilesAfterWrite(codec: Codec, disk: Disk, r: Request, stop: Stop)
    requires !Refused(r)
    ensures var after := AfterWrite(codec, disk, r, stop);
      && (if BodyReplaced(r, stop) then BodyName(r.id) in after && after[BodyName(r.id)] == r.body
          else SameFiles(disk, after, {BodyName(r.id)}))
      && (!stop.Never? || NewEntry(codec, disk, r).Err? ==> SameFiles(disk, after, {MetaName(r.id)}))
      && (stop.Never? && NewEntry(codec, disk, r).Ok? ==>
          MetaName(r.id) in after && after[MetaName(r.id)] == codec.encode(NewEntry(codec, disk, r).value))
  {
    KindsDiffer(r.id);
    assert NewEntry(codec, WithBody(disk, r), r) == NewEntry(codec, disk, r);
  }

  /**
   What a read yields after a write stopped anywhere, on any disk: before the body's rename the old
   result; from then on the new body as far as the old sidecar vouches for it; at the end the new body.
   */
  lemma ReadAfterStoppedWrite(codec: Codec, disk: Disk, r: Request, stop: Stop)
    requires Faithful(codec) && !Refused(r)
    ensures var seen := Read(codec, AfterWrite(codec, disk, r, stop), r.id);
      if !BodyReplaced(r, stop) then seen == Read(codec, disk, r.id)
      else if stop.Never? && NewEntry(codec, disk, r).Ok? then seen == Ok(Some(r.body))
      else seen == Vouched(r.body, ReadMetadata(codec, disk, r.id))
  {
    FilesAfterWrite(codec, disk, r, stop);
  }

  /**
   After a write stopped anywhere: the whole old result, the whole new body, or a reported mismatch; a sidecar
   that was malformed before is reported as such.
   */
  lemma NeverAPartialBody(codec: Codec, disk: Disk, r: Request, stop: Stop)
    requires Faithful(codec) && !Refused(r)
    ensures var seen := Read(codec, AfterWrite(codec, disk, r, stop), r.id);
      || seen in {Read(codec, disk, r.id), Ok(Some(r.body)), Err(MetadataMismatch)}
      || (ReadMetadata(codec, disk, r.id) == Err(MetadataMalformed) && seen == Err(MetadataMalformed))
  {
    ReadAfterStoppedWrite(codec, disk, r, stop);
  }

  lemma NewEntryIff(codec: Codec, disk: Disk, r: Request)
    requires !Refused(r)
    ensures NewEntry(codec, WithBody(disk, r), r) == NewEntry(codec, disk, r)
    ensures NewEntry(codec, disk, r).Ok? <==> CanFinish(codec, disk, r)
  {
    KindsDiffer(r.id);
  }

  /** A write that is not stopped reads back exactly when it was given a validator or found a readable sidecar. */
  lemma ReadsBackIff(codec: Codec, disk: Disk, r: Request)
    requires Faithful(codec) && !Refused(r)
    ensures Read(codec, AfterWrite(codec, disk, r, Never), r.id) == Ok(Some(r.body)) <==> CanFinish(codec, disk, r)
  {
    NewEntryIff(codec, disk, r);
    ReadAfterStoppedWrite(codec, disk, r, Never);
  }

  /** Such a write reads back with the validators it was given or found. */
  lemma FinishedWriteReadsBack(codec: Codec, disk: Disk, r: Request)
    requires Faithful(codec) && !Refused(r) && CanFinish(codec, disk, r)
    ensures var after := AfterWrite(codec, disk, r, Never);
      && Read(codec, after, r.id) == Ok(Some(r.body))
      && ReadMetadata(codec, after, r.id) == Ok(Some(NewEntry(codec, disk, r).value))
  {
    NewEntryIff(codec, disk, r);
    ReadAfterStoppedWrite(codec, disk, r, Never);
    FilesAfterWrite(codec, disk, r, Never);
  }

  /** Any other write fails after it has replaced the body, and reads fail from then on. */
  lemma MalformedSidecarFailsLate(codec: Codec, disk: Disk, r: Request)
    requires !Refused(r) && !CanFinish(codec, disk, r)
    ensures var after := AfterWrite(codec, disk, r, Never);
      NewEntry(codec, WithBody(disk, r), r).Err? && BodyName(r.id) in after && after[BodyName(r.id)] == r.body
      && Read(codec, after, r.id) == Err(MetadataMalformed)
  {
    FilesAfterWrite(codec, disk, r, Never);
    KindsDiffer(r.id);
  }

  // ----- Whole histories -----

  datatype Op = Write(request: Request, stop: Stop) | Remove(id: string, bodyOnly: bool)

  function IdOf(op: Op): string {
    if op.Write? then op.request.id else op.id
  }

  function Apply(codec: Codec, disk: Disk, op: Op): Disk {
    match op
    case Write(r, stop) => AfterWrite(codec, disk, r, stop)
    case Remove(id, bodyOnly) => AfterRemove(disk, id, bodyOnly)
  }

  function History(codec: Codec, disk: Disk, ops: seq<Op>): Disk {
    if ops == [] then disk else Apply(codec, History(codec, disk, ops[..|ops| - 1]), ops[|ops| - 1])
  }

  /** An operation on one id leaves every file of every other id alone. */
  lemma OtherIdsUntouched(codec: Codec, disk: Disk, op: Op, other: string)
    requires IsPathSafe(other) && IdOf(op) != other
    ensures SameFiles(disk, Apply(codec, disk, op), NamesOf(other))
  {
    if IsPathSafe(IdOf(op)) {
      IdsShareNothing(IdOf(op), other);
    }
  }

  lemma SameFilesReadAlike(codec: Codec, a: Disk, b: Disk, id: string)
    requires SameFiles(a, b, NamesOf(id))
    ensures Read(codec, a, id) == Read(codec, b, id) && ReadMetadata(codec, a, id) == ReadMetadata(codec, b, id)
  {
    assert BodyName(id) in NamesOf(id) && MetaName(id) in NamesOf(id);
  }

  /** A finished write keeps reading back while only other ids are worked on. */
  lemma {:induction false} OthersCannotDisturb(codec: Codec, disk: Disk, ops: seq<Op>, id: string)
    requires IsPathSafe(id) && forall k :: 0 <= k < |ops| ==> IdOf(ops[k]) != id
    ensures Read(codec, History(codec, disk, ops), id) == Read(codec, disk, id)
  {
    if ops != [] {
      var init := ops[..|ops| - 1];
      OthersCannotDisturb(codec, disk, init, id);
      var before := History(codec, disk, init);
      OtherIdsUntouched(codec, before, ops[|ops| - 1], id);
      SameFilesReadAlike(codec, before, History(codec, disk, ops), id);
    }
  }

  ghost predicate IsWriteOf(op: Op, id: string, body: bytes) {
    op.Write? && op.request.id == id && op.request.body == body && !Refused(op.request)
  }

  ghost predicate WroteWhole(ops: seq<Op>, id: string, body: bytes) {
    exists k :: 0 <= k < |ops| && IsWriteOf(ops[k], id, body)
  }

  lemma {:induction false} BodiesAreWhole(codec: Codec, ops: seq<Op>, id: string)
    requires IsPathSafe(id) && BodyName(id) in History(codec, map[], ops)
    ensures WroteWhole(ops, id, History(codec, map[], ops)[BodyName(id)])
  {
    if ops != [] {
      var init, last := ops[..|ops| - 1], ops[|ops| - 1];
      var before, after := History(codec, map[], init), History(codec, map[], ops);
      if last.Write? && last.request.id == id && BodyReplaced(last.request, last.stop) {
        FilesAfterWrite(codec, before, last.request, last.stop);
        assert IsWriteOf(ops[|ops| - 1], id, last.request.body);
      } else {
        BodyKept(codec, before, last, id);
        BodiesAreWhole(codec, init, id);
        var k :| 0 <= k < |init| && IsWriteOf(init[k], id, before[BodyName(id)]);
        assert ops[k] == init[k];
      }
    }
  }

  lemma BodyKept(codec: Codec, disk: Disk, op: Op, id: string)
    requires IsPathSafe(id) && BodyName(id) in Apply(codec, disk, op)
    requires !(op.Write? && op.request.id == id && BodyReplaced(op.request, op.stop))
    ensures BodyName(id) in disk && Apply(codec, disk, op)[BodyName(id)] == disk[BodyName(id)]
  {
    if IdOf(op) != id {
      OtherIdsUntouched(codec, disk, op, id);
      assert BodyName(id) in NamesOf(id);
    } else if op.Write? && !Refused(op.request) {
      FilesAfterWrite(codec, disk, op.request, op.stop);
    }
  }

  lemma SidecarReadsAfter(codec: Codec, disk: Disk, op: Op, id: string)
    requires Faithful(codec) && IsPathSafe(id) && ReadMetadata(codec, disk, id).Ok?
    ensures ReadMetadata(codec, Apply(codec, disk, op), id).Ok?
  {
    if IdOf(op) != id {
      OtherIdsUntouched(codec, disk, op, id);
      SameFilesReadAlike(codec, disk, Apply(codec, disk, op), id);
    } else if op.Write? && !Refused(op.request) {
      FilesAfterWrite(codec, disk, op.request, op.stop);
    } else {
      KindsDiffer(id);
    }
  }

  /** No history of the store itself leaves a sidecar that cannot be read: a malformed one comes from outside. */
  lemma {:induction false} SidecarsAlwaysRead(codec: Codec, ops: seq<Op>, id: string)
    requires Faithful(codec) && IsPathSafe(id)
    ensures ReadMetadata(codec, History(codec, map[], ops), id).Ok?
  {
    if ops != [] {
      var init := ops[..|ops| - 1];
      SidecarsAlwaysRead(codec, init, id);
      SidecarReadsAfter(codec, History(codec, map[], init), ops[|ops| - 1], id);
    }
  }

  /**
   Over every history of writes and removals, each stopped wherever it may, a read of any id returns
   nothing, a body that some write was given whole for that id, or a reported mismatch.
   */
  lemma EveryReadIsWhole(codec: Codec, ops: seq<Op>, id: string)
    requires Faithful(codec) && IsPathSafe(id)
    ensures var seen := Read(codec, History(codec, map[], ops), id);
      || seen == Ok(None) || seen == Err(MetadataMismatch)
      || (seen.Ok? && seen.value.Some? && WroteWhole(ops, id, seen.value.value))
  {
    SidecarsAlwaysRead(codec, ops, id);
    if BodyName(id) in History(codec, map[], ops) {
      BodiesAreWhole(codec, ops, id);
    }
  }

  /** Every write that is not stopped succeeds after such a history, unless it is refused outright. */
  lemma WritesAlwaysFinish(codec: Codec, ops: seq<Op>, r: Request)
    requires Faithful(codec) && !Refused(r)
    ensures Read(codec, History(codec, map[], ops + [Write(r, Never)]), r.id) == Ok(Some(r.body))
  {
    SidecarsAlwaysRead(codec, ops, r.id);
    assert (ops + [Write(r, Never)])[..|ops|] == ops;
    ReadsBackIff(codec, History(codec, map[], ops), r);
  }
}
