/** The growing output buffer of json_buf_append (src/stdlib_json.c): an array that doubles, with a NUL
    after the text. */
module Buffers {
  import opened Bytes

  class Buffer {
    var data: array<Byte>   // its length is the capacity
    var len: nat

    ghost predicate Valid()
      reads this, data
    {
      len == 0 == data.Length || (len < data.Length && data[len] == 0)
    }

    /** The text written so far. */
    ghost function Text(): (s: seq<Byte>)
      reads this, data
      requires Valid()
    {
      data[..len]
    }

    constructor ()
      ensures Valid() && Text() == [] && fresh(data)
    {
      data, len := new Byte[0], 0;
    }

    /** json_buf_append. */
    method Append(str: seq<Byte>)
      requires Valid()
      modifies this, data
      ensures Valid() && Text() == old(Text()) + str
      ensures data == old(data) || fresh(data)
    {
      var capacity := data.Length;
      while len + |str| + 1 > capacity
        decreases len + |str| + 1 - capacity
      {
        capacity := if capacity < 64 then 64 else capacity * 2;
      }
      if capacity > data.Length { Reallocate(capacity); }
      Copy(str);
      len := len + |str|;
      data[len] := 0;
      assert data[..len] == old(data[..len]) + str;
    }

    /** realloc to a larger size. */
    method Reallocate(capacity: nat)
      requires capacity > data.Length && len <= data.Length
      modifies this`data
      ensures fresh(data) && data.Length == capacity && data[..len] == old(data[..len])
    {
      var larger := new Byte[capacity];
      var i := 0;
      while i < len
        invariant 0 <= i <= len <= data.Length && len == old(len) && data == old(data) && data[..] == old(data[..])
        invariant forall j :: 0 <= j < i ==> larger[j] == data[j]
      {
        larger[i] := data[i];
        i := i + 1;
      }
      data := larger;
    }

    /** memcpy behind the text. */
    method Copy(str: seq<Byte>)
      requires len + |str| < data.Length
      modifies data
      ensures data[..len] == old(data[..len]) && data[len..len + |str|] == str
    {
      var i := 0;
      while i < |str|
        invariant 0 <= i <= |str|
        invariant forall j :: 0 <= j < len ==> data[j] == old(data[j])
        invariant forall j :: 0 <= j < i ==> data[len + j] == str[j]
      {
        data[len + i] := str[i];
        i := i + 1;
      }
    }
  }
}
