/** memcpy, as the program uses it. */
module Memory {
  import opened Bytes

  /** memcpy(buf + index, octets, |octets|). */
  method CopyInto(buf: array<byte>, index: nat, octets: seq<byte>)
    requires index + |octets| <= buf.Length
    modifies buf
    ensures buf[..] == old(buf[..index]) + octets + old(buf[index + |octets|..])
  {
    var i := 0;
    while i < |octets|
      invariant i <= |octets|
      invariant buf[..] == old(buf[..index]) + octets[..i] + old(buf[index + i..])
    {
      buf[index + i] := octets[i];
      i := i + 1;
    }
  }
}
