/** The byte/word conversions the controller uses between byte-oriented
    BM1387 commands and the IP core's 32-bit FIFOs: `LittleEndian::read_u32`
    and `LittleEndian::write_u32` from the `byteorder` crate, the chunking of a
    command into words, and the 8-byte buffer a command response is read into. */
module Wire {
  import opened Types

  /** The four bytes of `w`, least significant first (`LittleEndian::write_u32`). */
  function LeBytes(w: u32): (r: seq<byte>)
    ensures |r| == 4
  {
    [(w & 0xFF) as byte, ((w >> 8) & 0xFF) as byte,
     ((w >> 16) & 0xFF) as byte, ((w >> 24) & 0xFF) as byte]
  }

  /** The word whose little-endian bytes are `b` (`LittleEndian::read_u32`). */
  function LeWord(b: seq<byte>): u32
    requires |b| == 4
  {
    (b[0] as u32) | ((b[1] as u32) << 8) | ((b[2] as u32) << 16) | ((b[3] as u32) << 24)
  }

  lemma LeWordOfLeBytes(w: u32)
    ensures LeWord(LeBytes(w)) == w
  {
  }

  /** Each byte lane of an assembled word holds the byte put there. */
  lemma ByteLanes(b0: byte, b1: byte, b2: byte, b3: byte)
    ensures var w := (b0 as u32) | ((b1 as u32) << 8) | ((b2 as u32) << 16) | ((b3 as u32) << 24);
      && (w & 0xFF) as byte == b0 && ((w >> 8) & 0xFF) as byte == b1
      && ((w >> 16) & 0xFF) as byte == b2 && ((w >> 24) & 0xFF) as byte == b3
  {
  }

  lemma LeBytesOfLeWord(b: seq<byte>)
    requires |b| == 4
    ensures LeBytes(LeWord(b)) == b
  {
    ByteLanes(b[0], b[1], b[2], b[3]);
  }

  /** The words a control command occupies in the command TX FIFO: word `i`
      is the little-endian value of bytes `4i .. 4i+3` (`cmd.chunks(4)`). */
  function Serialize(cmd: seq<byte>): (r: seq<u32>)
    requires |cmd| % 4 == 0
    ensures |r| == |cmd| / 4
    ensures forall i :: 0 <= i < |r| ==> r[i] == LeWord(cmd[4 * i .. 4 * i + 4])
  {
    seq(|cmd| / 4, i requires 0 <= i < |cmd| / 4 => LeWord(cmd[4 * i .. 4 * i + 4]))
  }

  /** The bytes a sequence of FIFO words carries, each word little-endian. */
  function Deserialize(words: seq<u32>): (r: seq<byte>)
    ensures |r| == 4 * |words|
  {
    if words == [] then [] else LeBytes(words[0]) + Deserialize(words[1..])
  }

  /** Chunking a command into words loses nothing: the bytes come back. */
  lemma {:induction false} DeserializeSerialize(cmd: seq<byte>)
    requires |cmd| % 4 == 0
    ensures Deserialize(Serialize(cmd)) == cmd
    decreases |cmd|
  {
    if cmd != [] {
      var ws, rest := Serialize(cmd), Serialize(cmd[4..]);
      forall i | 0 <= i < |rest|
        ensures ws[1..][i] == rest[i]
      {
        assert cmd[4..][4 * i .. 4 * i + 4] == cmd[4 * (i + 1) .. 4 * (i + 1) + 4];
      }
      assert ws[1..] == rest;
      LeBytesOfLeWord(cmd[..4]);
      DeserializeSerialize(cmd[4..]);
      assert cmd == cmd[..4] + cmd[4..];
    }
  }

  /** And words come back from their bytes. */
  lemma {:induction false} SerializeDeserialize(words: seq<u32>)
    ensures Serialize(Deserialize(words)) == words
  {
    if words != [] {
      var b := Deserialize(words);
      SerializeDeserialize(words[1..]);
      assert b[..4] == LeBytes(words[0]);
      assert b[4..] == Deserialize(words[1..]);
      LeWordOfLeBytes(words[0]);
      var s := Serialize(b);
      forall i | 0 <= i < |words|
        ensures s[i] == words[i]
      {
        if i > 0 {
          assert b[4 * i .. 4 * i + 4] == b[4..][4 * (i - 1) .. 4 * (i - 1) + 4];
        }
      }
    }
  }

  /** Serializing a concatenation of whole commands concatenates their words. */
  lemma SerializeAppend(a: seq<byte>, b: seq<byte>)
    requires |a| % 4 == 0 && |b| % 4 == 0
    ensures Serialize(a + b) == Serialize(a) + Serialize(b)
  {
    var s, sa, sb := Serialize(a + b), Serialize(a), Serialize(b);
    forall i | 0 <= i < |s|
      ensures s[i] == (sa + sb)[i]
    {
      if i >= |sa| {
        assert (a + b)[4 * i .. 4 * i + 4] == b[4 * (i - |sa|) .. 4 * (i - |sa|) + 4];
      } else {
        assert (a + b)[4 * i .. 4 * i + 4] == a[4 * i .. 4 * i + 4];
      }
    }
  }

  /** The bytes of a concatenation of word sequences concatenate. */
  lemma {:induction false} DeserializeAppend(a: seq<u32>, b: seq<u32>)
    ensures Deserialize(a + b) == Deserialize(a) + Deserialize(b)
  {
    if a != [] {
      assert (a + b)[0] == a[0] && (a + b)[1..] == a[1..] + b;
      DeserializeAppend(a[1..], b);
      calc {
        Deserialize(a + b);
        LeBytes(a[0]) + Deserialize(a[1..] + b);
        LeBytes(a[0]) + (Deserialize(a[1..]) + Deserialize(b));
        (LeBytes(a[0]) + Deserialize(a[1..])) + Deserialize(b);
      }
    } else {
      assert a + b == b;
    }
  }

  /** Appending a command's words to a FIFO appends exactly the command's
      bytes to the bytes the FIFO carries. */
  lemma CommandAppended(fifo: seq<u32>, cmd: seq<byte>)
    requires |cmd| % 4 == 0
    ensures Deserialize(fifo + Serialize(cmd)) == Deserialize(fifo) + cmd
  {
    DeserializeAppend(fifo, Serialize(cmd));
    DeserializeSerialize(cmd);
  }

  /** The bytes of a command response that reach the unpacker: the two RX
      words are written little-endian into an 8-byte buffer and only bytes
      0..6 are kept, dropping the checksum byte and the FIFO padding byte. */
  function RespFrame(w0: u32, w1: u32): (r: seq<byte>)
    ensures r == LeBytes(w0) + LeBytes(w1)[..2]
  {
    var buf := LeBytes(w0) + LeBytes(w1);
    assert buf[..6] == LeBytes(w0) + LeBytes(w1)[..2];
    buf[..6]
  }

  /** A response that left the chain as the 8 bytes `wire` (7 response bytes
      and one padding byte) and was carried by two little-endian FIFO words
      reaches the unpacker as its first 6 bytes. */
  lemma RespFrameOfWire(wire: seq<byte>)
    requires |wire| == 8
    ensures RespFrame(LeWord(wire[..4]), LeWord(wire[4..])) == wire[..6]
  {
    LeBytesOfLeWord(wire[..4]);
    LeBytesOfLeWord(wire[4..]);
    assert wire == wire[..4] + wire[4..];
  }
}
