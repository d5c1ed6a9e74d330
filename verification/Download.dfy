/** Background download of layers: verify, rename, switch the read path, and retry. */
module Download {
  import opened Basics
  import opened BlobCopy

  type Digest = string
  type Content = seq<Byte>

  /** What the environment computes: SHA-256 of a file, and the logical content of a layer blob
      opened as tar and zfile, if it can be opened. */
  datatype World = World(sha: seq<Byte> -> Digest, open: seq<Byte> -> Option<Content>)

  /** A layer: the digest its manifest gives and the content its readers see. */
  datatype Layer = Layer(digest: Digest, content: Content)

  /** Whatever has the layer's digest and can be opened has the layer's content. */
  ghost predicate Names(w: World, layer: Layer) {
    forall b :: w.sha(b) == layer.digest && w.open(b).Some? ==> w.open(b).value == layer.content
  }

  /** Where equal digests mean equal bytes, the digest of the remote blob names its content. */
  lemma RemoteBlobNames(w: World, blob: seq<Byte>, layer: Layer)
    requires forall a, b :: w.sha(a) == w.sha(b) ==> a == b
    requires w.sha(blob) == layer.digest && w.open(blob) == Some(layer.content)
    ensures Names(w, layer)
  {
  }

  function Slice(s: seq<Byte>, offset: nat, count: nat): seq<Byte> {
    if offset >= |s| then [] else s[offset..Min(offset + count, |s|)]
  }

  /** The read path of a layer: calls go to the local file once it is set, else to the remote. */
  class SwitchFile {
    const remote: Option<Content>
    var local: Option<Content>

    constructor (source: Content, isLocal: bool)
      ensures View() == source
      ensures isLocal <==> local.Some?
    {
      if isLocal {
        remote, local := None, Some(source);
      } else {
        remote, local := Some(source), None;
      }
    }

    function View(): Content
      reads this
    {
      if local.Some? then local.value else if remote.Some? then remote.value else []
    }

    /** SwitchFile::pread: the bytes from the offset on, as many as asked for or as there are, of
        the local file once it is set and of the remote one before. */
    method Pread(count: nat, offset: nat) returns (bytes: seq<Byte>)
      ensures bytes == Slice(View(), offset, count)
      ensures var file := if local.Some? then local.value else if remote.Some? then remote.value else [];
              && |bytes| == (if offset >= |file| then 0 else if count < |file| - offset then count else |file| - offset)
              && forall i :: 0 <= i < |bytes| ==> bytes[i] == file[offset + i]
    {
      if local.Some? {
        bytes := Slice(local.value, offset, count);
      } else {
        bytes := Slice(if remote.Some? then remote.value else [], offset, count);
      }
    }

    /** SwitchFile::set_switch_file: any failure to open leaves the read path as it was. */
    method SetSwitchFile(w: World, commit: Option<seq<Byte>>, opens: bool)
      modifies this`local
      ensures local == if opens && commit.Some? && w.open(commit.value).Some? then w.open(commit.value) else old(local)
    {
      if !opens {
        return;
      }
      if commit.Some? && w.open(commit.value).Some? {
        local := w.open(commit.value);
      }
    }
  }

  /** One layer to download. */
  class Item {
    const layer: Layer
    const dir: Dir
    const sw: SwitchFile
    const src: seq<Byte>
    const fileSize: nat
    const blockSize: nat
    var tryCnt: nat
    var forceDownload: bool

    constructor (layer: Layer, dir: Dir, sw: SwitchFile, src: seq<Byte>, fileSize: nat, blockSize: nat, tryCnt: nat)
      ensures this.layer == layer && this.dir == dir && this.sw == sw && this.src == src
      ensures this.fileSize == fileSize && this.blockSize == blockSize && this.tryCnt == tryCnt && !forceDownload
    {
      this.layer, this.dir, this.sw, this.src, this.fileSize := layer, dir, sw, src, fileSize;
      this.blockSize, this.tryCnt, this.forceDownload := blockSize, tryCnt, false;
    }

    /** A commit file, if there is one, has the layer's digest. */
    ghost predicate Verified(w: World)
      reads dir`commit
    {
      dir.commit.Some? ==> w.sha(dir.commit.value) == layer.digest
    }

    /** Readers see the layer's content. */
    ghost predicate Transparent()
      reads sw
    {
      sw.View() == layer.content
    }

    ghost predicate Good(w: World)
      reads dir`commit, sw
    {
      Verified(w) && Transparent()
    }

    /** Readers go to the commit file, if it can be opened. */
    ghost predicate Switched(w: World)
      reads dir`commit, sw
    {
      dir.commit.Some? && w.open(dir.commit.value).Some? ==> sw.local == w.open(dir.commit.value)
    }

    /** Readers are on the commit file. */
    ghost predicate OnCommit(w: World)
      reads dir`commit, sw
    {
      dir.commit.Some? && w.open(dir.commit.value).Some? && sw.local == w.open(dir.commit.value)
    }

    method SwitchToLocalFile(w: World, io: Io)
      requires Good(w) && Names(w, layer)
      modifies sw`local
      ensures Good(w) && (io.opens ==> Switched(w))
      ensures sw.local == old(sw.local) || OnCommit(w)
    {
      sw.SetSwitchFile(w, dir.commit, io.opens);
    }

    /** Check the digest of the downloaded file, then rename it to the commit file. */
    method DownloadDone(w: World, io: Io) returns (ok: bool)
      requires dir.tmp.Some? && Verified(w)
      modifies this`forceDownload, dir
      ensures Verified(w)
      ensures ok <==> io.renames && w.sha(Bytes(old(dir.tmp).value)) == layer.digest
      ensures ok ==> dir.commit == Some(Bytes(old(dir.tmp).value)) && dir.tmp == None
      ensures !ok ==> dir.commit == old(dir.commit) && dir.tmp == old(dir.tmp)
      ensures forceDownload <==> old(forceDownload) || w.sha(Bytes(old(dir.tmp).value)) != layer.digest
    {
      var shares := w.sha(Bytes(dir.tmp.value));
      if shares != layer.digest {
        forceDownload := true;
        return false;
      }
      if !io.renames {
        return false;
      }
      dir.commit := Some(Bytes(dir.tmp.value));
      dir.tmp := None;
      return true;
    }

    /** The next attempt starts over, or can build on what is there. */
    ghost predicate Recoverable()
      reads this`forceDownload, dir`tmp
    {
      forceDownload || Resumable(dir.tmp, src)
    }

    /** A source of the size and digest that the layer should have. */
    ghost predicate GoodSource(w: World) {
      fileSize == |src| && w.sha(src) == layer.digest
    }

    /** BkDownload::download. While no read is short, a source of the right size and digest never
        fails the verification, and an attempt leaves the item recoverable. Where nothing fails,
        the attempt commits the source and switches to it. */
    method Download(w: World, io: Io) returns (ok: bool)
      requires Good(w) && Names(w, layer) && 0 < blockSize && 0 < tryCnt
      modifies this`forceDownload, this`tryCnt, dir, sw`local
      ensures Good(w)
      ensures NoShortRead(io, src, blockSize) && fileSize == |src| && old(Recoverable()) ==> Recoverable()
      ensures NoShortRead(io, src, blockSize) && GoodSource(w) && old(Recoverable()) ==>
                forceDownload == old(forceDownload)
      ensures ok ==> dir.commit.Some? && (io.opens ==> Switched(w))
      ensures old(dir.commit).Some? ==> ok && dir.commit == old(dir.commit) && tryCnt == old(tryCnt)
      ensures old(dir.commit).None? ==> tryCnt == old(tryCnt) - 1
      ensures old(dir.commit).None? && NoShortRead(io, src, blockSize) && fileSize == |src| && old(Recoverable()) ==>
                (ok ==> dir.commit == Some(src))
      ensures sw.local == old(sw.local) || OnCommit(w)
      ensures Smooth(io, blockSize) && GoodSource(w) && old(Recoverable()) ==> ok
    {
      if dir.commit.Some? {
        SwitchToLocalFile(w, io);
        return true;
      }
      tryCnt := tryCnt - 1;
      ok := DownloadBlob(Job(io, src, fileSize, blockSize, forceDownload), dir);
      if ok {
        var done := DownloadDone(w, io);
        if !done {
          return false;
        }
        SwitchToLocalFile(w, io);
        return true;
      }
      return false;
    }
  }
}
