/**
  Chunked file transfer (internal/agentrpc/files.go, internal/agentrpc/client_io.go):
  the upload loop of the client, the part file and rename of the agent, the
  download loop that holds one chunk back, and the client's reassembly.
 */
module Transfer {
  import opened Common

  type Bytes = seq<bv8>

  const FILES_CHUNK: nat := 8388608   // 8 << 20

  // ----- readers ----------------------------------------------------------------------

  /** How a Read returns: more may follow, end of file, or an error. */
  datatype Status = More | Eof | Failed

  datatype Read = Read(data: Bytes, status: Status)

  /**
    The results of successive Reads up to the first that is not More.  Any split
    of the data is allowed, empty script and data returned with end of file included.
   */
  ghost predicate IsScript(script: seq<Read>) {
    && script != []
    && script[|script| - 1].status != More
    && forall i :: 0 <= i < |script| - 1 ==> script[i].status == More
  }

  lemma ScriptEnd(script: seq<Read>, i: nat)
    requires IsScript(script) && i < |script|
    ensures script[i].status != More <==> i == |script| - 1
  {
  }

  /** The io.Reader contract: no more than fits the buffer. */
  ghost predicate FitsBuffer(script: seq<Read>) {
    forall i :: 0 <= i < |script| ==> |script[i].data| <= FILES_CHUNK
  }

  predicate Completes(script: seq<Read>) { script != [] && script[|script| - 1].status == Eof }

  /** What the first n reads deliver. */
  function Delivered(script: seq<Read>, n: nat): Bytes
    requires n <= |script|
  {
    if n == 0 then [] else Delivered(script, n - 1) + script[n - 1].data
  }

  /** Everything a script delivers. */
  function Payload(script: seq<Read>): Bytes { Delivered(script, |script|) }

  function Joined(chunks: seq<Bytes>, n: nat): Bytes
    requires n <= |chunks|
  {
    if n == 0 then [] else Joined(chunks, n - 1) + chunks[n - 1]
  }

  function Concat(chunks: seq<Bytes>): Bytes { Joined(chunks, |chunks|) }

  lemma {:induction false} JoinedPrefix(a: seq<Bytes>, b: seq<Bytes>, n: nat)
    requires n <= |a| && a <= b
    ensures Joined(a, n) == Joined(b, n)
  {
    if n > 0 { JoinedPrefix(a, b, n - 1); }
  }

  lemma ConcatAppend(chunks: seq<Bytes>, c: Bytes)
    ensures Concat(chunks + [c]) == Concat(chunks) + c
  {
    JoinedPrefix(chunks, chunks + [c], |chunks|);
  }

  /** A further read delivers its data after everything before it. */
  lemma PayloadAppend(script: seq<Read>, r: Read)
    ensures Payload([]) == [] && Payload(script + [r]) == Payload(script) + r.data
  {
    DeliveredPrefix(script, script + [r], |script|);
  }

  lemma {:induction false} DeliveredPrefix(a: seq<Read>, b: seq<Read>, n: nat)
    requires n <= |a| && a <= b
    ensures Delivered(a, n) == Delivered(b, n)
  {
    if n > 0 { DeliveredPrefix(a, b, n - 1); }
  }

  // ----- uploading --------------------------------------------------------------------------

  /** What an upload asks of the stream. */
  datatype Frame = Begin | Chunk(k: nat) | Finish | Answer

  /**
    Client.FilesPut up to the finish message: what is sent as chunks, and whether
    everything went out.  `stream` says which frames get through.
   */
  method SendFile(script: seq<Read>, stream: Frame -> bool) returns (sent: seq<Bytes>, finished: bool)
    requires IsScript(script) && FitsBuffer(script)
    ensures Concat(sent) <= Payload(script)
    ensures finished ==> Concat(sent) == Payload(script)
    ensures finished <==> && stream(Begin) && Completes(script) && stream(Finish)
                          && forall k :: 0 <= k < |sent| ==> stream(Chunk(k))
    ensures forall k :: 0 <= k < |sent| ==> 0 < |sent[k]| <= FILES_CHUNK
  {
    sent := [];
    if !stream(Begin) {
      return sent, false;
    }
    var i := 0;
    while true
      invariant 0 <= i < |script|
      invariant Concat(sent) == Delivered(script, i)
      invariant forall k :: 0 <= k < |sent| ==> stream(Chunk(k)) && 0 < |sent[k]| <= FILES_CHUNK
      decreases |script| - i
    {
      var r := script[i];
      ScriptEnd(script, i);
      PayloadGrows(script, i + 1);
      if |r.data| > 0 {
        ConcatAppend(sent, r.data);
        sent := sent + [r.data];
        if !stream(Chunk(|sent| - 1)) {
          return sent, false;
        }
      }
      if r.status == Eof {
        return sent, stream(Finish);
      }
      if r.status == Failed {
        return sent, false;
      }
      i := i + 1;
    }
  }

  /** Client.FilesPut: success means that every byte was sent and the agent's answer came back. */
  method FilesPut(script: seq<Read>, stream: Frame -> bool) returns (sent: seq<Bytes>, good: bool)
    requires IsScript(script) && FitsBuffer(script)
    ensures good ==> Concat(sent) == Payload(script)
    ensures good <==> && stream(Begin) && Completes(script) && stream(Finish) && stream(Answer)
                      && forall k :: 0 <= k < |sent| ==> stream(Chunk(k))
  {
    sent, good := SendFile(script, stream);
    good := good && stream(Answer);
  }

  // ----- the part file ------------------------------------------------------------------------

  datatype Io = OpenPart | WritePart(k: nat) | SyncPart | ClosePart | RenamePart | DeletePart

  type Files = map<string, Bytes>

  function PartOf(rel: string): string { rel + ".part" }

  function Lower(c: char): char {
    if 'A' <= c <= 'Z' then (c as int + 32) as char else c
  }

  /** strings.EqualFold; one side is always lower-case hexadecimal. */
  predicate EqualFold(a: string, b: string) {
    |a| == |b| && forall i :: 0 <= i < |a| ==> Lower(a[i]) == Lower(b[i])
  }

  predicate Expected(expectedSha: string, sum: string) {
    expectedSha == "" || EqualFold(expectedSha, sum)
  }


  /** No hash is expected, or one of the same letters, whatever their case. */
  lemma ExpectedExactly(a: string, b: string)
    ensures Expected(a, b) <==>
              || a == ""
              || (|a| == |b| && forall i :: 0 <= i < |a| ==> SameLetter(a[i], b[i]))
  {
    forall i | 0 <= i < |a| && 0 <= i < |b| ensures Lower(a[i]) == Lower(b[i]) <==> SameLetter(a[i], b[i]) {
    }
  }

  predicate SameLetter(c: char, d: char) {
    || c == d
    || ('A' <= c <= 'Z' && d as int == c as int + 32)
    || ('A' <= d <= 'Z' && c as int == d as int + 32)
  }
  predicate Accepted(maxBytes: int, size: nat) { maxBytes <= 0 || size <= maxBytes }

  datatype PutResult = Stored(size: nat, sha: string) | Rejected

  /** Only the part file may differ. */
  ghost predicate SameButPart(files: Files, files': Files, rel: string) {
    forall f :: f != PartOf(rel) ==> (f in files <==> f in files') && (f in files ==> files'[f] == files[f])
  }

  /**
    writePartThenRename.  On any error the target and every other file are as
    they were; on success the target holds exactly what was read, within the
    limit and with the expected hash.  Without I/O errors it succeeds exactly
    when the reader completes within the limits and the hash agrees.
   */
  method WritePartThenRename(files: Files, rel: string, script: seq<Read>, maxBytes: int, expectedSha: string,
                             hash: Bytes -> string, ok: Io -> bool) returns (files': Files, r: PutResult)
    requires IsScript(script)
    ensures r.Rejected? ==> SameButPart(files, files', rel)
    ensures r.Stored? ==> files' == (files - {PartOf(rel)})[rel := Payload(script)]
    ensures r.Stored? ==> r == Stored(|Payload(script)|, hash(Payload(script))) && Completes(script)
    ensures r.Stored? ==> Accepted(maxBytes, r.size) && Expected(expectedSha, r.sha)
    ensures (forall s :: ok(s)) ==>
              (r.Stored? <==> && Completes(script) && FitsBuffer(script) && Accepted(maxBytes, |Payload(script)|)
                              && Expected(expectedSha, hash(Payload(script))))
    ensures (forall s :: ok(s)) && r.Rejected? ==> PartOf(rel) !in files'
    ensures (forall s :: ok(s)) && Completes(script) && FitsBuffer(script) && expectedSha == "" ==>
              if maxBytes <= 0 then r.Stored? else (r.Stored? <==> |Payload(script)| <= maxBytes)
  {
    var part := PartOf(rel);
    assert part != rel && |part| > |rel|;
    files', r := files, Rejected;
    if !ok(OpenPart) {
      return;
    }
    files' := files'[part := []];
    var body, good := ReceivePart(script, maxBytes, ok);
    files' := files'[part := body];
    if !good || !ok(SyncPart) || !ok(ClosePart) {
      files' := DeletePartFile(files', part, ok);
      return;
    }
    var sum := hash(body);
    if expectedSha != "" && !EqualFold(expectedSha, sum) {
      files' := DeletePartFile(files', part, ok);
      return;
    }
    if !ok(RenamePart) {
      files' := DeletePartFile(files', part, ok);
      return;
    }
    files' := (files' - {part})[rel := body];
    r := Stored(|body|, sum);
  }

  function DeletePartFile(files: Files, part: string, ok: Io -> bool): Files {
    if ok(DeletePart) then files - {part} else files
  }

  /** The read loop: what reached the part file, and whether it is all there. */
  method ReceivePart(script: seq<Read>, maxBytes: int, ok: Io -> bool) returns (body: Bytes, good: bool)
    requires IsScript(script)
    ensures good ==> Completes(script) && FitsBuffer(script) && body == Payload(script) && Accepted(maxBytes, |body|)
    ensures (forall s :: ok(s)) && Completes(script) && FitsBuffer(script) && Accepted(maxBytes, |Payload(script)|) ==>
              good
    ensures maxBytes > 0 ==> |body| <= maxBytes
    ensures (forall s :: ok(s)) && Completes(script) && FitsBuffer(script) ==>
              if maxBytes <= 0 then good else (good <==> |Payload(script)| <= maxBytes)
  {
    body := [];
    var i := 0;
    while true
      invariant 0 <= i < |script|
      invariant forall j :: 0 <= j < i ==> |script[j].data| <= FILES_CHUNK
      invariant body == Delivered(script, i) && Accepted(maxBytes, |body|)
      decreases |script| - i
    {
      var x := script[i];
      ScriptEnd(script, i);
      PayloadGrows(script, i + 1);
      if |x.data| > 0 {
        if |x.data| > FILES_CHUNK {
          return body, false;
        }
        if maxBytes > 0 && |body| + |x.data| > maxBytes {
          return body, false;
        }
        if !ok(WritePart(i)) {
          return body, false;
        }
        body := body + x.data;
      }
      if x.status == Eof {
        return body, true;
      }
      if x.status == Failed {
        return body, false;
      }
      i := i + 1;
    }
  }

  lemma {:induction false} PayloadGrows(script: seq<Read>, i: nat)
    requires i <= |script|
    ensures Delivered(script, i) <= Payload(script)
    decreases |script| - i
  {
    if i < |script| {
      PayloadGrows(script, i + 1);
    }
  }

  // ----- downloading ---------------------------------------------------------------------------

  /** One FilesGetResponse; a chunk may be absent, which a receiver script as empty. */
  datatype Message = Message(chunk: Bytes, sha: string)

  function Carried(ms: seq<Message>, n: nat): Bytes
    requires n <= |ms|
  {
    if n == 0 then [] else Carried(ms, n - 1) + ms[n - 1].chunk
  }

  /** The chunks of all messages, in order. */
  function Content(ms: seq<Message>): Bytes { Carried(ms, |ms|) }

  lemma {:induction false} CarriedPrefix(a: seq<Message>, b: seq<Message>, n: nat)
    requires n <= |a| && a <= b
    ensures Carried(a, n) == Carried(b, n)
  {
    if n > 0 { CarriedPrefix(a, b, n - 1); }
  }

  /** The hash rides on the last message and on no other. */
  ghost predicate HashOnLastOnly(ms: seq<Message>, sha: string) {
    && ms != []
    && ms[|ms| - 1].sha == sha
    && forall i :: 0 <= i < |ms| - 1 ==> ms[i].sha == ""
  }

  /**
    readFileSHA: each chunk is sent when the next one is in hand, so the last can
    carry the hash.  `emits` says whether the k-th message is accepted.
   */
  method ReadFileSha(script: seq<Read>, hash: Bytes -> string, emits: nat -> bool)
      returns (ms: seq<Message>, good: bool)
    requires IsScript(script) && FitsBuffer(script)
    ensures good <==> Completes(script) && forall k :: 0 <= k < |ms| ==> emits(k)
    ensures good ==> Content(ms) == Payload(script) && HashOnLastOnly(ms, hash(Payload(script)))
    ensures forall k :: 0 <= k < |ms| ==> |ms[k].chunk| <= FILES_CHUNK
  {
    var seen, pending, fine;
    ms, pending, seen, fine := EmitChunks(script, emits);
    if !fine {
      return ms, false;
    }
    FinishWith(ms, pending, hash(seen), emits);
    ms := ms + [Message(Held(pending), hash(seen))];
    return ms, emits(|ms| - 1);
  }

  /** The read loop, up to end of file: what was sent, what is held back, and what was hashed. */
  method EmitChunks(script: seq<Read>, emits: nat -> bool)
      returns (ms: seq<Message>, pending: Option<Bytes>, seen: Bytes, fine: bool)
    requires IsScript(script) && FitsBuffer(script)
    ensures fine ==> PlainChunks(ms, pending, emits) && Underway(ms, pending) == seen == Payload(script)
    ensures fine ==> Completes(script)
    ensures !fine ==> !Completes(script) || exists k :: 0 <= k < |ms| && !emits(k)
    ensures forall k :: 0 <= k < |ms| ==> |ms[k].chunk| <= FILES_CHUNK
  {
    ms, pending, seen, fine := [], None, [], true;
    var i := 0;
    while fine && i < |script|
      invariant 0 <= i <= |script|
      invariant fine ==> seen == Delivered(script, i) && Underway(ms, pending) == seen
      invariant fine ==> PlainChunks(ms, pending, emits)
      invariant !fine ==> exists k :: 0 <= k < |ms| && !emits(k)
      invariant forall k :: 0 <= k < |ms| ==> |ms[k].chunk| <= FILES_CHUNK
    {
      if |script[i].data| > 0 {
        seen := seen + script[i].data;
        ms, pending, fine := HoldBack(ms, pending, script[i].data, emits);
      }
      i := i + 1;
    }
    // Only the last read is not More; it is end of file or an error.
    fine := fine && script[|script| - 1].status == Eof;
  }

  lemma FinishWith(ms: seq<Message>, pending: Option<Bytes>, sha: string, emits: nat -> bool)
    requires PlainChunks(ms, pending, emits)
    ensures var all := ms + [Message(Held(pending), sha)];
            && Content(all) == Underway(ms, pending) && HashOnLastOnly(all, sha)
            && (forall k :: 0 <= k < |all| ==> |all[k].chunk| <= FILES_CHUNK)
            && ((forall k :: 0 <= k < |all| ==> emits(k)) <==> emits(|ms|))
  {
    EmitContent(ms, Message(Held(pending), sha));
  }

  /** What was sent and what is held back. */
  function Underway(ms: seq<Message>, pending: Option<Bytes>): Bytes {
    Content(ms) + Held(pending)
  }

  /** So far no hash was sent and every message was accepted. */
  ghost predicate PlainChunks(ms: seq<Message>, pending: Option<Bytes>, emits: nat -> bool) {
    && |Held(pending)| <= FILES_CHUNK
    && forall k :: 0 <= k < |ms| ==> ms[k].sha == "" && emits(k) && |ms[k].chunk| <= FILES_CHUNK
  }

  /** A new chunk releases the one held back and takes its place. */
  method HoldBack(ms: seq<Message>, pending: Option<Bytes>, data: Bytes, emits: nat -> bool)
      returns (ms': seq<Message>, pending': Option<Bytes>, fine: bool)
    requires PlainChunks(ms, pending, emits) && |data| <= FILES_CHUNK
    ensures fine ==> PlainChunks(ms', pending', emits) && Underway(ms', pending') == Underway(ms, pending) + data
    ensures !fine ==> exists k :: 0 <= k < |ms'| && !emits(k)
    ensures forall k :: 0 <= k < |ms'| ==> |ms'[k].chunk| <= FILES_CHUNK
  {
    ms', pending', fine := ms, Some(data), true;
    if pending.Some? {
      EmitContent(ms, Message(pending.value, ""));
      ms' := ms + [Message(pending.value, "")];
      fine := emits(|ms|);
    } else {
      assert Content(ms) + [] == Content(ms);
    }
  }

  function Held(pending: Option<Bytes>): Bytes {
    if pending.Some? then pending.value else []
  }

  lemma EmitContent(ms: seq<Message>, m: Message)
    ensures Content(ms + [m]) == Content(ms) + m.chunk
  {
    CarriedPrefix(ms, ms + [m], |ms|);
  }

  /** The last non-empty hash received. */
  function LastSha(ms: seq<Message>): string {
    if ms == [] then ""
    else if ms[|ms| - 1].sha != "" then ms[|ms| - 1].sha
    else LastSha(ms[..|ms| - 1])
  }

  /** None if no message carries one, else that of the last message that does. */
  lemma {:induction false} LastShaExactly(ms: seq<Message>)
    ensures LastSha(ms) == "" <==> forall k :: 0 <= k < |ms| ==> ms[k].sha == ""
    ensures LastSha(ms) != "" ==>
              exists k :: 0 <= k < |ms| && ms[k].sha == LastSha(ms) && forall l :: k < l < |ms| ==> ms[l].sha == ""
    decreases |ms|
  {
    if ms != [] && ms[|ms| - 1].sha == "" {
      var init := ms[..|ms| - 1];
      LastShaExactly(init);
      if LastSha(init) != "" {
        var k :| 0 <= k < |init| && init[k].sha == LastSha(init) && forall l :: k < l < |init| ==> init[l].sha == "";
        assert ms[k].sha == LastSha(ms);
      }
    }
  }

  /** Client.FilesGetBuffer: nothing when the stream does not open or ends in an error. */
  method FilesGetBuffer(reachable: bool, ms: seq<Message>, failed: bool) returns (r: Option<(Bytes, string)>)
    ensures r == if reachable && !failed then Some((Content(ms), LastSha(ms))) else None
  {
    if !reachable {
      return None;
    }
    var buf, sha := [], "";
    for i := 0 to |ms|
      invariant buf == Content(ms[..i]) && sha == LastSha(ms[..i])
    {
      assert ms[..i + 1] == ms[..i] + [ms[i]] && ms[..i + 1][..i] == ms[..i];
      EmitContent(ms[..i], ms[i]);
      buf := buf + ms[i].chunk;
      if ms[i].sha != "" {
        sha := ms[i].sha;
      }
    }
    assert ms[..|ms|] == ms;
    if failed {
      return None;
    }
    return Some((buf, sha));
  }

  // ----- the round trip --------------------------------------------------------------------------

  /** A reader delivers `data` in some split that fits the buffer, and ends in an error unless it is whole. */
  ghost predicate Delivers(script: seq<Read>, data: Bytes, whole: bool) {
    && IsScript(script) && FitsBuffer(script) && Payload(script) == data
    && (Completes(script) <==> whole)
  }

  /** What can go wrong in a put and a get, besides the content. */
  datatype Faults = Faults(
    local: bool,             // the local reader reaches its end
    stream: Frame -> bool,   // a frame of the upload gets through
    part: Io -> bool,        // a step on the part file succeeds
    disk: bool,              // reading the stored file reaches its end
    emits: nat -> bool,      // a message of the download gets through
    reachable: bool,         // the download opens
    cut: bool)               // the download ends in an error

  ghost predicate NoFaults(f: Faults) {
    && f.local && (forall x :: f.stream(x)) && (forall x :: f.part(x))
    && f.disk && (forall k :: f.emits(k)) && f.reachable && !f.cut
  }

  /**
    A put followed by a get.  The agent's pipe carries what the client sent, cut
    short when the client did not finish; the download reads what is stored.
    `pipe` and `disk` split it in any way, and stop early when told to.  A stored
    upload has exactly the local bytes, all of them, a rejected one leaves the old
    file, and a get that succeeds returns what is stored with its hash.  The agent
    passes no expected hash (internal/agentrpc/io.go:124).
   */
  method PutThenGet(files: Files, rel: string, data: Bytes, maxBytes: int, hash: Bytes -> string, local: seq<Read>,
                    pipe: (Bytes, bool) -> seq<Read>, disk: (Bytes, bool) -> seq<Read>, faults: Faults)
      returns (files': Files, r: PutResult, back: Option<(Bytes, string)>)
    requires Delivers(local, data, faults.local)
    requires forall d, whole :: Delivers(pipe(d, whole), d, whole)
    requires forall d :: Delivers(disk(d, true), d, true) && hash(d) != ""
    requires forall d :: IsScript(disk(d, false)) && FitsBuffer(disk(d, false)) && !Completes(disk(d, false))
    ensures r.Stored? ==> faults.local && r == Stored(|data|, hash(data))
    ensures r.Stored? ==> files' == (files - {PartOf(rel)})[rel := data]
    ensures r.Rejected? ==> SameButPart(files, files', rel)
    ensures back.Some? ==> rel in files' && back == Some((files'[rel], hash(files'[rel])))
    ensures r.Stored? && back.Some? ==> back == Some((data, hash(data)))
    ensures NoFaults(faults) ==>
              && (if maxBytes <= 0 then r.Stored? else (r.Stored? <==> |data| <= maxBytes))
              && (back.Some? <==> rel in files')
  {
    var sent, finished := SendFile(local, faults.stream);
    var received := pipe(Concat(sent), finished);
    files', r := WritePartThenRename(files, rel, received, maxBytes, "", hash, faults.part);
    if rel !in files' {
      return files', r, None;
    }
    var ms, good := ReadFileSha(disk(files'[rel], faults.disk), hash, faults.emits);
    back := FilesGetBuffer(faults.reachable, ms, faults.cut || !good);
  }
}
