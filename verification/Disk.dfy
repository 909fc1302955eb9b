// The SD card as the book services see it: the I/O boundary book_engine_io, over a map from
// paths to file contents. Any operation may fail, unless the card is fault free.
module Disk {
  import opened Utf8

  type FilePath = seq<byte>

  datatype File = File(bytes: seq<byte>, modified: int)

  datatype Error = Ok | NoMemory | InvalidArgument | InvalidState | InvalidSize | NotFound | Fail

  // What overwriting a file with data at an offset leaves; a gap reads as zeros.
  function Overwritten(old_: seq<byte>, offset: nat, data: seq<byte>): seq<byte> {
    if offset <= |old_| then
      old_[..offset] + data + (if offset + |data| <= |old_| then old_[offset + |data|..] else [])
    else old_ + seq(offset - |old_|, _ => 0) + data
  }

  class Card {
    var files: map<FilePath, File>
    const faultFree: bool

    constructor (files: map<FilePath, File>, faultFree: bool)
      ensures this.files == files && this.faultFree == faultFree
    {
      this.files := files;
      this.faultFree := faultFree;
    }

    // Whether this operation fails for a reason outside the program: a bad sector, a full
    // card, a removed card.
    method Faulty() returns (faulty: bool)
      ensures faultFree ==> !faulty
    {
      if faultFree {
        return false;
      }
      faulty := *;
    }

    method MediaValid() returns (valid: bool)
      ensures faultFree ==> valid
    {
      var faulty := Faulty();
      return !faulty;
    }

    // hal_storage_read_file_chunk: fopen, fstat, fseeko, fread, fclose.
    method Read(path: FilePath, offset: nat, data: array<byte>, capacity: nat)
      returns (error: Error, length: nat, size: nat, modified: int)
      requires capacity <= data.Length
      modifies data
      ensures error == Ok ==>
                && path in files && size == |files[path].bytes| && modified == files[path].modified
                && offset <= size && length == Min(capacity, size - offset)
                && data[..length] == files[path].bytes[offset..offset + length]
      ensures length <= data.Length
      ensures data[length..] == old(data[length..])
      ensures faultFree && path in files && offset <= |files[path].bytes| && capacity != 0 ==> error == Ok
    {
      length, size, modified := 0, 0, 0;
      if capacity == 0 {
        return InvalidArgument, length, size, modified;
      }
      var faulty := Faulty();
      if faulty {
        return Fail, length, size, modified;
      }
      if path !in files {
        return NotFound, length, size, modified;
      }
      var bytes := files[path].bytes;
      size, modified := |bytes|, files[path].modified;
      if offset > size {
        return InvalidSize, length, size, modified;
      }
      var wanted := Min(capacity, size - offset);
      while length < wanted
        invariant 0 <= length <= wanted
        invariant data[..length] == bytes[offset..offset + length]
        invariant data[length..] == old(data[length..])
      {
        data[length] := bytes[offset + length];
        length := length + 1;
      }
      error := Ok;
    }

    // hal_storage_write_system_file. A failed write leaves this file in any state.
    method Write(path: FilePath, offset: nat, data: seq<byte>, truncate: bool) returns (error: Error)
      modifies this
      ensures forall p :: p != path ==> (p in files <==> p in old(files)) && (p in files ==> files[p] == old(files)[p])
      ensures error == Ok ==>
                && path in files && (truncate || path in old(files))
                && files[path].bytes == Overwritten(if truncate then [] else old(files)[path].bytes, offset, data)
      ensures faultFree && (truncate || path in old(files)) ==> error == Ok
    {
      var modified: int := *;
      var faulty := Faulty();
      if faulty || (!truncate && path !in files) {
        var damage: seq<byte> := *;
        if !faultFree {
          files := files[path := File(damage, modified)];
        }
        return Fail;
      }
      files := files[path := File(Overwritten(if truncate then [] else files[path].bytes, offset, data), modified)];
      return Ok;
    }

    // hal_storage_replace_system_file: remove the destination, then rename. A failure may
    // leave either name in any state.
    method Replace(source: FilePath, destination: FilePath) returns (error: Error)
      requires source != destination
      modifies this
      ensures forall p :: p != source && p != destination ==>
                (p in files <==> p in old(files)) && (p in files ==> files[p] == old(files)[p])
      ensures error == Ok ==>
                source in old(files) && destination in files && files[destination] == old(files)[source]
      ensures faultFree && source in old(files) ==> error == Ok
    {
      var faulty := Faulty();
      if faulty || source !in files {
        var removed: bool := *;
        if removed {
          files := files - {destination};
        }
        return Fail;
      }
      files := (files - {source})[destination := files[source]];
      return Ok;
    }

    // Somebody else, a computer the card has been in, gives a file a new time.
    method Touch(path: FilePath, modified: int)
      requires path in files
      modifies this
      ensures files == old(files)[path := File(old(files)[path].bytes, modified)]
    {
      files := files[path := File(files[path].bytes, modified)];
    }

    method MakeDirectory() returns (error: Error)
      ensures faultFree ==> error == Ok
    {
      var faulty := Faulty();
      return if faulty then Fail else Ok;
    }
  }
}
