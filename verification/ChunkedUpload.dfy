// The chunk loop of an upload: read at most a chunk, encrypt it at its absolute
// offset, send it, advance. Reads may be short, and any iteration may throw.
module ChunkedUpload {
  import opened Prelude
  import opened CounterMode

  function Concat(chunks: seq<seq<Byte>>): seq<Byte>
  {
    if |chunks| == 0 then [] else Concat(chunks[..|chunks| - 1]) + chunks[|chunks| - 1]
  }

  // What FileHandle.read(upToCount:) returns at a position: nothing at the end
  // of the file, otherwise between one byte and the whole chunk.
  function ReadLength(remaining: nat, chunkSize: nat, willing: nat): (n: nat)
    requires chunkSize >= 1
    ensures n <= chunkSize && n <= remaining
    ensures n == 0 <==> remaining == 0
  {
    var limit := if remaining < chunkSize then remaining else chunkSize;
    if willing > limit then limit else if willing == 0 && limit > 0 then 1 else willing
  }

  // What the server must receive for a file.
  function Payload(encryptor: UploadEncryptor?, file: seq<Byte>, offset: nat): seq<Byte>
  {
    if encryptor == null then file else Ctr(encryptor.cipher, encryptor.initialCounter, file, offset)
  }

  lemma PayloadSplit(encryptor: UploadEncryptor?, a: seq<Byte>, b: seq<Byte>)
    ensures Payload(encryptor, a + b, 0) == Payload(encryptor, a, 0) + Payload(encryptor, b, |a|)
  {
    if encryptor != null {
      CtrSplit(encryptor.cipher, encryptor.initialCounter, a, b, 0);
    }
  }

  // The server decrypts with the same parameters: whatever was cut into chunks,
  // one pass over their concatenation gives the file back.
  lemma ServerDecrypts(encryptor: UploadEncryptor, file: seq<Byte>, chunks: seq<seq<Byte>>)
    requires Concat(chunks) == Payload(encryptor, file, 0)
    ensures Ctr(encryptor.cipher, encryptor.initialCounter, Concat(chunks), 0) == file
  {
    CtrInvolution(encryptor.cipher, encryptor.initialCounter, file, 0);
  }

  lemma SendChunk(encryptor: UploadEncryptor?, file: seq<Byte>, chunks: seq<seq<Byte>>, offset: nat, n: nat, body: seq<Byte>)
    requires offset + n <= |file| && Concat(chunks) == Payload(encryptor, file[..offset], 0)
    requires body == Payload(encryptor, file[offset..offset + n], offset)
    ensures Concat(chunks + [body]) == Payload(encryptor, file[..offset + n], 0)
  {
    PayloadSplit(encryptor, file[..offset], file[offset..offset + n]);
    assert file[..offset] + file[offset..offset + n] == file[..offset + n];
    assert (chunks + [body])[..|chunks|] == chunks;
  }

  // `encryptor?.encrypt(data, at: byteOffset) ?? data`
  method EncryptChunk(encryptor: UploadEncryptor?, data: seq<Byte>, byteOffset: nat, cryptorOk: bool) returns (r: Result<seq<Byte>, string>)
    requires byteOffset + |data| <= TWO_TO_THE_64
    ensures r.Ok? ==> r.value == Payload(encryptor, data, byteOffset) && |r.value| == |data|
    ensures r.Err? <==> encryptor != null && data != [] && !cryptorOk
  {
    if encryptor == null {
      return Ok(data);
    }
    r := encryptor.Encrypt(data, byteOffset, cryptorOk);
  }

  // Every body carries at least a byte and at most a chunk.
  ghost predicate Sized(chunks: seq<seq<Byte>>, chunkSize: nat)
  {
    forall i :: 0 <= i < |chunks| ==> 0 < |chunks[i]| <= chunkSize
  }

  function EffectiveChunk(field: Option<int>): (n: nat)
    ensures n >= 1
  {
    var c := if field.Some? then field.value else 0;
    if c > 1 then c else 1
  }

  // No read stops short of the chunk.
  ghost predicate FullReads(willing: nat -> nat, chunkSize: nat)
  {
    forall i: nat :: willing(i) >= chunkSize
  }

  ghost predicate FullButLast(chunks: seq<seq<Byte>>, chunkSize: nat)
  {
    forall i :: 0 <= i < |chunks| - 1 ==> |chunks[i]| == chunkSize
  }

  // The bodies as the loop posts them: each within the chunk size and, with full reads,
  // of exactly that size if the file goes on after it.
  ghost predicate Posted(chunks: seq<seq<Byte>>, chunkSize: nat, full: bool, more: bool)
    decreases |chunks|
  {
    chunks == [] ||
    var last := chunks[|chunks| - 1];
    0 < |last| <= chunkSize && (full && more ==> |last| == chunkSize) && Posted(chunks[..|chunks| - 1], chunkSize, full, true)
  }

  lemma PostOne(chunks: seq<seq<Byte>>, body: seq<Byte>, chunkSize: nat, full: bool, more: bool)
    requires Posted(chunks, chunkSize, full, true) && 0 < |body| <= chunkSize
    requires full && more ==> |body| == chunkSize
    ensures Posted(chunks + [body], chunkSize, full, more)
  {
    assert (chunks + [body])[..|chunks|] == chunks;
  }

  lemma {:induction false} PostedMeans(chunks: seq<seq<Byte>>, chunkSize: nat, full: bool, more: bool)
    requires Posted(chunks, chunkSize, full, more)
    ensures Sized(chunks, chunkSize)
    ensures full ==> FullButLast(chunks, chunkSize) && (more && chunks != [] ==> |chunks[|chunks| - 1]| == chunkSize)
    decreases |chunks|
  {
    if chunks != [] {
      PostedMeans(chunks[..|chunks| - 1], chunkSize, full, true);
    }
  }

  // Any length that fits chunk and file may be read.
  lemma AnyReadIsPossible(remaining: nat, chunkSize: nat, n: nat)
    requires 1 <= n <= chunkSize && n <= remaining
    ensures exists willing: nat :: ReadLength(remaining, chunkSize, willing) == n
  {
    assert ReadLength(remaining, chunkSize, n) == n;
  }

  // A read that is willing to fill the chunk falls short only at the end of the file.
  lemma ReadStopsAtEnd(remaining: nat, chunkSize: nat, willing: nat)
    requires chunkSize >= 1
    ensures willing >= chunkSize && ReadLength(remaining, chunkSize, willing) < remaining ==>
            ReadLength(remaining, chunkSize, willing) == chunkSize
  {}

  // No body is larger than the negotiated size, or than one byte where none is given;
  // when no read stops short, all but the last have exactly that size.
  ghost predicate KeepsLimit(chunks: seq<seq<Byte>>, chunkSizeField: Option<int>, willing: nat -> nat)
  {
    var limit: nat := if chunkSizeField.Some? && chunkSizeField.value >= 1 then chunkSizeField.value else 1;
    Sized(chunks, limit) && (FullReads(willing, limit) ==> FullButLast(chunks, limit))
  }

  // What the loop has done: it posted the payload of the bytes before `sent`, in such bodies.
  ghost predicate Progress(encryptor: UploadEncryptor?, file: seq<Byte>, chunks: seq<seq<Byte>>, sent: nat, chunkSize: nat, full: bool)
  {
    && sent <= |file| && Concat(chunks) == Payload(encryptor, file[..sent], 0)
    && (file != [] ==> Posted(chunks, chunkSize, full, sent < |file|))
  }

  lemma OneMoreChunk(
    encryptor: UploadEncryptor?, file: seq<Byte>, chunks: seq<seq<Byte>>, sent: nat, body: seq<Byte>,
    chunkSize: nat, willing: nat, full: bool)
    requires chunkSize >= 1 && Progress(encryptor, file, chunks, sent, chunkSize, full)
    requires full ==> willing >= chunkSize
    requires |body| == ReadLength(|file| - sent, chunkSize, willing) && (body == [] ==> file == [])
    requires body == Payload(encryptor, file[sent..sent + |body|], sent)
    ensures Progress(encryptor, file, chunks + [body], sent + |body|, chunkSize, full)
  {
    SendChunk(encryptor, file, chunks, sent, |body|, body);
    ReadStopsAtEnd(|file| - sent, chunkSize, willing);
    if file != [] {
      PostOne(chunks, body, chunkSize, full, sent + |body| < |file|);
    }
  }

  // Encrypts what was read at its absolute offset, ready to be posted.
  method PrepareChunk(
    encryptor: UploadEncryptor?, file: seq<Byte>, data: seq<Byte>, byteOffset: nat, chunkSize: nat, willing: nat,
    cryptorOk: bool, ghost chunks: seq<seq<Byte>>, ghost full: bool
  ) returns (r: Result<seq<Byte>, string>)
    requires |file| <= TWO_TO_THE_64 && chunkSize >= 1
    requires Progress(encryptor, file, chunks, byteOffset, chunkSize, full) && (full ==> willing >= chunkSize)
    requires |data| == ReadLength(|file| - byteOffset, chunkSize, willing) && (data == [] ==> file == [])
    requires data == file[byteOffset..byteOffset + |data|]
    ensures r.Ok? ==> |r.value| == |data| && Progress(encryptor, file, chunks + [r.value], byteOffset + |data|, chunkSize, full)
    ensures r.Err? ==> encryptor != null && !cryptorOk
  {
    r := EncryptChunk(encryptor, data, byteOffset, cryptorOk);
    if r.Ok? {
      OneMoreChunk(encryptor, file, chunks, byteOffset, r.value, chunkSize, willing, full);
    }
  }

  // No iteration before n throws.
  ghost predicate NoneThrew(throws: nat -> bool, n: nat)
  {
    n == 0 || (!throws(n - 1) && NoneThrew(throws, n - 1))
  }

  lemma {:induction false} NoneThrewMeans(throws: nat -> bool, n: nat)
    requires NoneThrew(throws, n)
    ensures forall i :: 0 <= i < n ==> !throws(i)
  {
    if n != 0 {
      NoneThrewMeans(throws, n - 1);
    }
  }

  method UploadChunks(
    encryptor: UploadEncryptor?, file: seq<Byte>, size: nat, chunkSize: nat,
    willing: nat -> nat, throws: nat -> bool, cryptorOk: nat -> bool, ghost full: bool
  ) returns (ok: bool, chunks: seq<seq<Byte>>, completedUnitCount: nat)
    requires |file| <= TWO_TO_THE_64 && chunkSize >= 1
    requires full ==> FullReads(willing, chunkSize)
    ensures Progress(encryptor, file, chunks, completedUnitCount, chunkSize, full)
    ensures ok ==> completedUnitCount == |file|
    ensures ok && file == [] ==> chunks == if size == 0 then [[]] else []
    ensures !ok ==> throws(|chunks|) || (encryptor != null && !cryptorOk(|chunks|))
    ensures NoneThrew(throws, |chunks|)
  {
    var index := 0;
    var byteOffset := 0;
    chunks, completedUnitCount := [], 0;
    assert file[..0] == [];
    while true
      invariant 0 <= byteOffset <= |file| && completedUnitCount == byteOffset
      invariant index == |chunks| && (index == 0 <==> byteOffset == 0)
      invariant Progress(encryptor, file, chunks, byteOffset, chunkSize, full)
      invariant NoneThrew(throws, index)
      decreases |file| - byteOffset
    {
      if throws(index) {
        return false, chunks, completedUnitCount;
      }
      var n := ReadLength(|file| - byteOffset, chunkSize, willing(index));
      var data := file[byteOffset..byteOffset + n];
      if data == [] && !(size == 0 && index == 0) {
        return true, chunks, completedUnitCount;
      }
      var uploadData := PrepareChunk(encryptor, file, data, byteOffset, chunkSize, willing(index), cryptorOk(index), chunks, full);
      if uploadData.Err? {
        return false, chunks, completedUnitCount;
      }
      chunks := chunks + [uploadData.value];
      completedUnitCount := completedUnitCount + n;
      byteOffset := byteOffset + n;
      index := index + 1;
      if data == [] {
        return true, chunks, completedUnitCount;
      }
    }
  }

  // The loop sends one body per iteration; `chunks` collects the bodies posted,
  // by chunk index. `size` is what stat reported before the file was opened; the
  // bytes read are those of `file`. `willing(i)` bounds the i-th read, `throws(i)`
  // says that iteration i is cancelled, fails to read, or fails to post, and
  // `cryptorOk(i)` is the status of its ECB call.
  method UploadFile(
    encryptor: UploadEncryptor?, file: seq<Byte>, size: nat, chunkSizeField: Option<int>,
    willing: nat -> nat, throws: nat -> bool, cryptorOk: nat -> bool
  ) returns (ok: bool, chunks: seq<seq<Byte>>, completedUnitCount: nat)
    requires |file| <= TWO_TO_THE_64
    ensures completedUnitCount <= |file|
    ensures Concat(chunks) == Payload(encryptor, file[..completedUnitCount], 0)
    ensures ok ==> completedUnitCount == |file|
    ensures ok && file == [] ==> chunks == if size == 0 then [[]] else []
    ensures file != [] ==> KeepsLimit(chunks, chunkSizeField, willing)
    ensures !ok ==> throws(|chunks|) || (encryptor != null && !cryptorOk(|chunks|))
    ensures forall i :: 0 <= i < |chunks| ==> !throws(i)
  {
    var chunkSize := EffectiveChunk(chunkSizeField);
    ghost var full := FullReads(willing, chunkSize);
    ok, chunks, completedUnitCount := UploadChunks(encryptor, file, size, chunkSize, willing, throws, cryptorOk, full);
    NoneThrewMeans(throws, |chunks|);
    if file != [] {
      PostedMeans(chunks, chunkSize, full, completedUnitCount < |file|);
    }
  }

  // A run that stops anywhere has sent a prefix of the payload; one that has
  // read the whole file has sent all of it.
  lemma SentIsPrefix(encryptor: UploadEncryptor?, file: seq<Byte>, chunks: seq<seq<Byte>>, n: nat)
    requires n <= |file| && Concat(chunks) == Payload(encryptor, file[..n], 0)
    ensures Concat(chunks) <= Payload(encryptor, file, 0)
    ensures n == |file| <==> Concat(chunks) == Payload(encryptor, file, 0)
  {
    assert file == file[..n] + file[n..];
    PayloadSplit(encryptor, file[..n], file[n..]);
  }
}
