// The text output of services/book/epub_cache_engine.cpp: write_text() and flush_text()
// behind their 4096-byte buffer.
module ContentSink {
  import opened Utf8
  import opened Disk
  import opened XhtmlText

  const OUTPUT_CAPACITY: nat := 4096

  // At most one file differs.
  ghost predicate OnlyChanged(before: map<FilePath, File>, after: map<FilePath, File>, path: FilePath) {
    forall p :: p != path ==> (p in after <==> p in before) && (p in after ==> after[p] == before[p])
  }

  lemma OnlyChangedSame(files: map<FilePath, File>, path: FilePath)
    ensures OnlyChanged(files, files, path)
  {
  }

  lemma OnlyChangedTwice(a: map<FilePath, File>, b: map<FilePath, File>, c: map<FilePath, File>, path: FilePath)
    requires OnlyChanged(a, b, path) && OnlyChanged(b, c, path)
    ensures OnlyChanged(a, c, path)
  {
  }

  lemma Extended(text: seq<byte>, data: seq<byte>, i: nat, j: nat)
    requires i <= j <= |data|
    ensures (text + data[..i]) + data[i..j] == text + data[..j]
  {
    assert data[..i] + data[i..j] == data[..j];
  }

  class TextOutput {
    const io: Card
    const path: FilePath
    const output: array<byte>
    var used: nat
    var written: nat
    var started: bool
    // sink_error_: why the last write was refused, if it was.
    var refused: bool

    // What has reached the file.
    ghost var saved: seq<byte>

    ghost predicate Buffered()
      reads this`used, this`written, this`started, this`saved
    {
      && output.Length == OUTPUT_CAPACITY && used <= output.Length
      && written == |saved| && (!started ==> saved == [])
      && written + used <= CONTENT_SIZE_LIMIT
    }

    // The file holds what has been flushed.
    ghost predicate Stored()
      reads this`started, this`saved, io
    {
      started ==> path in io.files && io.files[path].bytes == saved
    }

    ghost predicate Valid()
      reads this, io
    {
      Buffered() && Stored() && !refused && used < OUTPUT_CAPACITY
    }

    // Everything written so far, on disk or not.
    ghost function Text(): seq<byte>
      reads this`used, this`saved, output
      requires used <= output.Length
    {
      saved + output[..used]
    }

    constructor (io: Card, path: FilePath)
      ensures Valid() && fresh(output) && Text() == [] && !started
      ensures this.io == io && this.path == path
    {
      this.io, this.path := io, path;
      output := new byte[OUTPUT_CAPACITY](_ => 0);
      used, written, started, refused := 0, 0, false, false;
      saved := [];
    }

    // What begin_rebuild() resets.
    method Restart()
      requires output.Length == OUTPUT_CAPACITY
      modifies this`used, this`written, this`started, this`refused, this`saved
      ensures Valid() && Text() == [] && !started
    {
      used, written, started, refused := 0, 0, false, false;
      saved := [];
      assert output[..0] == [];
    }

    // flush_text()
    method Flush() returns (ok: bool)
      requires Buffered() && Stored() && !refused
      modifies this`used, this`written, this`started, this`refused, this`saved, io
      ensures Buffered() && Text() == old(Text()) && refused == !ok
      ensures ok ==> Valid() && used == 0 && saved == Text() && written == old(written + used)
      ensures ok && Text() != [] ==> started
      ensures io.faultFree ==> ok
      ensures OnlyChanged(old(io.files), io.files, path)
    {
      if used == 0 {
        return true;
      }
      var error := io.Write(path, written, output[..used], !started);
      if error != Ok {
        refused := true;
        return false;
      }
      assert io.files[path].bytes == saved + output[..used];
      saved := saved + output[..used];
      started, written, used := true, written + used, 0;
      return true;
    }

    // write_text()
    method WriteText(data: seq<byte>) returns (ok: bool)
      requires Valid()
      modifies this`used, this`written, this`started, this`refused, this`saved, output, io
      ensures Buffered() && refused == !ok
      ensures ok ==> Valid() && Text() == old(Text()) + data
      ensures |old(Text())| + |data| > CONTENT_SIZE_LIMIT ==> !ok
      ensures io.faultFree && |old(Text())| + |data| <= CONTENT_SIZE_LIMIT ==> ok
      ensures OnlyChanged(old(io.files), io.files, path)
    {
      hide OnlyChanged;
      OnlyChangedSame(io.files, path);
      if |data| > CONTENT_SIZE_LIMIT - written - used {
        refused := true;
        return false;
      }
      var from := 0;
      while from < |data|
        invariant 0 <= from <= |data|
        invariant Valid() && written + used + (|data| - from) <= CONTENT_SIZE_LIMIT
        invariant Text() == old(Text()) + data[..from]
        invariant OnlyChanged(old(io.files), io.files, path)
        decreases |data| - from
      {
        var amount := Min(|data| - from, OUTPUT_CAPACITY - used);
        Extended(old(Text()), data, from, from + amount);
        ghost var files := io.files;
        var taken := Take(data[from..from + amount]);
        OnlyChangedTwice(old(io.files), files, io.files, path);
        if !taken {
          return false;
        }
        from := from + amount;
      }
      assert data[..|data|] == data;
      return true;
    }

    // One stretch of the data: into the buffer, and on to the file once that is full.
    method Take(data: seq<byte>) returns (ok: bool)
      requires Valid() && 0 < |data| <= OUTPUT_CAPACITY - used && written + used + |data| <= CONTENT_SIZE_LIMIT
      modifies this`used, this`written, this`started, this`refused, this`saved, output, io
      ensures Buffered() && refused == !ok
      ensures ok ==> Valid() && Text() == old(Text()) + data && written + used == old(written + used) + |data|
      ensures io.faultFree ==> ok
      ensures OnlyChanged(old(io.files), io.files, path)
    {
      CopyIn(data);
      if used == OUTPUT_CAPACITY {
        ok := Flush();
        return;
      }
      return true;
    }

    // memcpy() behind what is buffered.
    method CopyIn(data: seq<byte>)
      requires used + |data| <= output.Length
      modifies this`used, output
      ensures used == old(used) + |data| && Text() == old(Text()) + data
    {
      var i := 0;
      while i < |data|
        invariant 0 <= i <= |data|
        invariant used == old(used)
        invariant output[..used + i] == old(output[..used]) + data[..i]
      {
        output[used + i] := data[i];
        i := i + 1;
      }
      used := used + |data|;
      assert saved + (old(output[..used]) + data) == saved + old(output[..used]) + data;
    }
  }
}
