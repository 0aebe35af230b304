/**
 * The fixed-width row codec (`Row::serialize` / `Row::deserialize`, present in
 * both src/tokenizer.rs and src/main.rs with identical bodies).
 *
 * A row occupies ROW_SIZE = 291 bytes: the id as a little-endian u32 at offset
 * 0, the 32 username bytes at offset 4 and the 255 email bytes at offset 36.
 */
module RowCodec {
  import opened Constants

  type Username = s: seq<u8> | |s| == COLUMN_USERNAME_SIZE witness Zeros(COLUMN_USERNAME_SIZE)
  type Email = s: seq<u8> | |s| == COLUMN_EMAIL_SIZE witness Zeros(COLUMN_EMAIL_SIZE)

  /** `struct Row`: a numeric id and two zero-padded fixed-size byte fields. */
  datatype Row = Row(id: u32, username: Username, email: Email)

  /** `u32::from_le_bytes`. */
  function FromLeBytes(b: seq<u8>): (x: u32)
    requires |b| == ID_SIZE
  {
    b[0] as int + 0x100 * b[1] as int + 0x1_0000 * b[2] as int + 0x100_0000 * b[3] as int
  }

  /** `u32::to_le_bytes`: four bytes, least significant first. */
  function ToLeBytes(x: u32): (b: seq<u8>)
    ensures |b| == ID_SIZE
    ensures FromLeBytes(b) == x
  {
    var b1 := x / 0x100;
    var b2 := b1 / 0x100;
    var b3 := b2 / 0x100;
    assert x == x % 0x100 + 0x100 * b1;
    assert b1 == b1 % 0x100 + 0x100 * b2;
    assert b2 == b2 % 0x100 + 0x100 * b3;
    [x % 0x100, b1 % 0x100, b2 % 0x100, b3]
  }

  /** Every four bytes are the encoding of the u32 they decode to. */
  lemma ToLeBytesFromLeBytes(b: seq<u8>)
    requires |b| == ID_SIZE
    ensures ToLeBytes(FromLeBytes(b)) == b
  {
    var x := FromLeBytes(b);
    assert x % 0x100 == b[0];
    var b1 := b[1] as int + 0x100 * b[2] as int + 0x1_0000 * b[3] as int;
    var b2 := b[2] as int + 0x100 * b[3] as int;
    assert x / 0x100 == b1;
    assert b1 / 0x100 == b2;
    assert b2 / 0x100 == b[3];
  }

  /** `Row::serialize`: the three fields laid end to end, with no gaps. */
  function Serialize(r: Row): (bytes: seq<u8>)
    ensures |bytes| == ROW_SIZE
    ensures FromLeBytes(bytes[ID_OFFSET..USERNAME_OFFSET]) == r.id
    ensures bytes[USERNAME_OFFSET..EMAIL_OFFSET] == r.username
    ensures bytes[EMAIL_OFFSET..ROW_SIZE] == r.email
  {
    ToLeBytes(r.id) + r.username + r.email
  }

  /**
   * `Row::deserialize`: total on any slice of at least ROW_SIZE bytes (a
   * shorter slice makes the Rust slicing panic).
   */
  function Deserialize(bytes: seq<u8>): (r: Row)
    requires |bytes| >= ROW_SIZE
  {
    Row(FromLeBytes(bytes[ID_OFFSET..USERNAME_OFFSET]),
        bytes[USERNAME_OFFSET..EMAIL_OFFSET],
        bytes[EMAIL_OFFSET..ROW_SIZE])
  }

  /** Decoding an encoded row gives the row back. */
  lemma DeserializeSerialize(r: Row)
    ensures Deserialize(Serialize(r)) == r
  {
  }

  /** Encoding a decoded row gives back the first ROW_SIZE bytes exactly. */
  lemma SerializeDeserialize(bytes: seq<u8>)
    requires |bytes| >= ROW_SIZE
    ensures Serialize(Deserialize(bytes)) == bytes[..ROW_SIZE]
  {
    ToLeBytesFromLeBytes(bytes[ID_OFFSET..USERNAME_OFFSET]);
    assert bytes[..ROW_SIZE] == bytes[ID_OFFSET..USERNAME_OFFSET] + bytes[USERNAME_OFFSET..EMAIL_OFFSET] + bytes[EMAIL_OFFSET..ROW_SIZE];
  }

  /** Deserialize looks only at the first ROW_SIZE bytes. */
  lemma DeserializePrefix(bytes: seq<u8>)
    requires |bytes| >= ROW_SIZE
    ensures Deserialize(bytes) == Deserialize(bytes[..ROW_SIZE])
  {
    var prefix := bytes[..ROW_SIZE];
    assert prefix[ID_OFFSET..USERNAME_OFFSET] == bytes[ID_OFFSET..USERNAME_OFFSET];
    assert prefix[USERNAME_OFFSET..EMAIL_OFFSET] == bytes[USERNAME_OFFSET..EMAIL_OFFSET];
    assert prefix[EMAIL_OFFSET..ROW_SIZE] == bytes[EMAIL_OFFSET..ROW_SIZE];
  }

  /** Two byte strings decode to the same row exactly when their first ROW_SIZE bytes agree. */
  lemma DeserializeReadsPrefix(a: seq<u8>, b: seq<u8>)
    requires |a| >= ROW_SIZE && |b| >= ROW_SIZE
    ensures Deserialize(a) == Deserialize(b) <==> a[..ROW_SIZE] == b[..ROW_SIZE]
  {
    SerializeDeserialize(a);
    SerializeDeserialize(b);
    DeserializePrefix(a);
    DeserializePrefix(b);
  }

  /** Serialize is injective: different rows never share an encoding. */
  lemma SerializeInjective(r1: Row, r2: Row)
    ensures Serialize(r1) == Serialize(r2) <==> r1 == r2
  {
    if Serialize(r1) == Serialize(r2) {
      DeserializeSerialize(r1);
      DeserializeSerialize(r2);
    }
  }
}
