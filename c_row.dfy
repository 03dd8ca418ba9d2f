/** The C row codec (`serialize_row`, `deserialize_row` in c/db.c). A C row
    is a struct of a `uint32_t` id and two fixed character arrays of
    USERNAME_SIZE and EMAIL_SIZE bytes; both functions copy all three fields
    whole with `memcpy`, whatever the arrays hold after their strings. */
module CRow {
  import opened Bytes
  import opened Layout
  import RowCodec

  /** The fields of a `Row` struct; well formed when the arrays have their
      declared sizes. */
  datatype Row = Row(id: u32, username: seq<byte>, email: seq<byte>)

  predicate WellFormed(row: Row)
  {
    |row.username| == USERNAME_SIZE && |row.email| == EMAIL_SIZE
  }

  /** The ROW_SIZE bytes `serialize_row` stores: the id in host (little-endian)
      order at ID_OFFSET, the full username array at USERNAME_OFFSET and the
      full email array at EMAIL_OFFSET. */
  function Image(row: Row): (r: seq<byte>)
    requires WellFormed(row)
    ensures |r| == ROW_SIZE
    ensures ReadU32(r, ID_OFFSET) == row.id
    ensures r[USERNAME_OFFSET..EMAIL_OFFSET] == row.username && r[EMAIL_OFFSET..ROW_SIZE] == row.email
  {
    DecodeEncode(row.id);
    var r := LeBytes(row.id) + row.username + row.email;
    assert r[ID_OFFSET..ID_OFFSET + 4] == LeBytes(row.id);
    r
  }

  /** The struct `deserialize_row` fills from ROW_SIZE bytes. */
  function Decode(b: seq<byte>): (row: Row)
    requires |b| == ROW_SIZE
    ensures WellFormed(row)
  {
    Row(ReadU32(b, ID_OFFSET), b[USERNAME_OFFSET..EMAIL_OFFSET], b[EMAIL_OFFSET..ROW_SIZE])
  }

  /** Every well-formed row survives a store and a load, byte for byte in
      all three fields. */
  lemma DecodeImage(row: Row)
    requires WellFormed(row)
    ensures Decode(Image(row)) == row
  {
  }

  /** Every ROW_SIZE byte string is the image of the row loaded from it: the
      codec is a bijection between well-formed rows and row slots. */
  lemma ImageDecode(b: seq<byte>)
    requires |b| == ROW_SIZE
    ensures Image(Decode(b)) == b
  {
    var row := Decode(b);
    EncodeDecode(b[ID_OFFSET..ID_OFFSET + 4]);
    assert b == b[ID_OFFSET..ID_OFFSET + 4] + row.username + row.email;
  }

  /** `serialize_row(source, destination + pos)`: three `memcpy`s, which
      together write the row's image at `pos` and nothing else. */
  method SerializeRow(row: Row, destination: array<byte>, pos: nat)
    requires WellFormed(row) && pos + ROW_SIZE <= destination.Length
    modifies destination
    ensures destination[..] == Overwrite(old(destination[..]), pos, Image(row))
  {
    ghost var start := destination[..];
    Memcpy(destination, pos + ID_OFFSET, LeBytes(row.id));
    Memcpy(destination, pos + USERNAME_OFFSET, row.username);
    Memcpy(destination, pos + EMAIL_OFFSET, row.email);
    OverwriteConcat(start, pos, LeBytes(row.id), row.username);
    OverwriteConcat(Overwrite(start, pos, LeBytes(row.id) + row.username), pos, LeBytes(row.id) + row.username, row.email);
    OverwriteConcat(start, pos, LeBytes(row.id) + row.username, row.email);
    assert LeBytes(row.id) + row.username + row.email == Image(row);
  }

  /** `deserialize_row(source + pos, destination)`: the three fields copied
      out of the ROW_SIZE bytes at `pos`. */
  method DeserializeRow(source: array<byte>, pos: nat) returns (row: Row)
    requires pos + ROW_SIZE <= source.Length
    ensures row == Decode(source[pos..pos + ROW_SIZE])
  {
    var id := LeValue(source[pos + ID_OFFSET..pos + ID_OFFSET + ID_SIZE]);
    var username := source[pos + USERNAME_OFFSET..pos + EMAIL_OFFSET];
    var email := source[pos + EMAIL_OFFSET..pos + ROW_SIZE];
    row := Row(id, username, email);
    ghost var b := source[pos..pos + ROW_SIZE];
    assert source[pos + ID_OFFSET..pos + ID_OFFSET + ID_SIZE] == b[ID_OFFSET..ID_OFFSET + 4];
    assert username == b[USERNAME_OFFSET..EMAIL_OFFSET];
    assert email == b[EMAIL_OFFSET..ROW_SIZE];
  }

  /** A store followed by a load of the same slot gives the row back. */
  lemma StoreLoad(s: seq<byte>, pos: nat, row: Row)
    requires WellFormed(row) && pos + ROW_SIZE <= |s|
    ensures Decode(Overwrite(s, pos, Image(row))[pos..pos + ROW_SIZE]) == row
  {
    DecodeImage(row);
  }

  /** Both implementations lay a row out the same way: a C struct whose
      arrays hold the strings zero-padded stores exactly the bytes the Rust
      `Row::serialize` produces for the same id and strings. */
  lemma SameLayoutAsRust(row: RowCodec.Row)
    requires RowCodec.FieldsFit(row)
    ensures WellFormed(Row(row.id, RowCodec.Padded(row.username, USERNAME_SIZE), RowCodec.Padded(row.email, EMAIL_SIZE)))
    ensures Image(Row(row.id, RowCodec.Padded(row.username, USERNAME_SIZE), RowCodec.Padded(row.email, EMAIL_SIZE)))
            == RowCodec.SerializedRow(row)
  {
    var b := RowCodec.SerializedRow(row);
    ImageDecode(b);
    assert Decode(b) == Row(row.id, RowCodec.Padded(row.username, USERNAME_SIZE), RowCodec.Padded(row.email, EMAIL_SIZE));
  }
}
