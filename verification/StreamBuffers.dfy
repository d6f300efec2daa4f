/** StreamBuf of src/common/ltsm_streambuf.cpp: a growing buffer with a read
    cursor.  What is still to be read is Remaining. */
module StreamBuffers {
  import opened MachineInts
  import opened Wrappers

  class StreamBuf {
    var vec: seq<byte>
    var it: nat

    ghost predicate Valid()
      reads this
    {
      it <= |vec|
    }

    ghost function Remaining(): seq<byte>
      requires Valid()
      reads this
    {
      vec[it..]
    }

    constructor ()
      ensures Valid() && Remaining() == []
    {
      vec, it := [], 0;
    }

    function Last(): (r: nat)
      requires Valid()
      reads this
      ensures r == |Remaining()|
    {
      |vec| - it
    }

    function Tell(): nat
      requires Valid()
      reads this
    {
      it
    }

    /** Takes the next `len` bytes, or throws and takes none. */
    method GetRaw(len: nat) returns (r: Result<seq<byte>>)
      requires Valid()
      modifies this`it
      ensures Valid()
      ensures r.Throws? <==> len > |old(Remaining())|
      ensures r.Throws? ==> it == old(it)
      ensures r.Ok? ==> r.value + Remaining() == old(Remaining()) && |r.value| == len
    {
      if Last() < len { return Throws; }
      r := Ok(vec[it..it + len]);
      it := it + len;
    }

    /** Appends; the cursor stays where it was. */
    method PutRaw(data: seq<byte>)
      requires Valid()
      modifies this
      ensures Valid() && Tell() == old(Tell())
      ensures Remaining() == old(Remaining()) + data
    {
      var offset := it;
      vec := vec + data;
      it := Min(offset, |vec|);
    }

    /** As GetRaw, but a length of zero means everything that is left. */
    method Read(len: nat) returns (r: Result<seq<byte>>)
      requires Valid()
      modifies this`it
      ensures Valid()
      ensures r.Throws? <==> len > |old(Remaining())|
      ensures r.Throws? ==> it == old(it)
      ensures r.Ok? ==> r.value + Remaining() == old(Remaining())
      ensures r.Ok? ==> |r.value| == if len == 0 then |old(Remaining())| else len
    {
      if len > Last() { return Throws; }
      var n := if len == 0 then Last() else len;
      r := Ok(vec[it..it + n]);
      it := it + n;
    }

    method Skip(len: nat) returns (r: Result<()>)
      requires Valid()
      modifies this`it
      ensures Valid()
      ensures r.Throws? <==> len > |old(Remaining())|
      ensures Remaining() == if r.Ok? then old(Remaining())[len..] else old(Remaining())
    {
      if len > Last() { return Throws; }
      it := it + len;
      r := Ok(());
    }

    /** Drops bytes already read when that is worth it; what is left to read
        does not change, and afterwards at most nine tenths are waste. */
    method Shrink()
      requires Valid()
      modifies this
      ensures Valid() && Remaining() == old(Remaining())
      ensures |vec| <= 10 * |Remaining()|
    {
      if |vec| != 0 {
        if it == |vec| {
          vec, it := [], 0;
        } else if |vec| > 10 * Last() {
          vec, it := vec[it..], 0;
        }
      }
    }
  }
}
