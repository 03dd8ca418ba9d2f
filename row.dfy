/** The Rust row codec (`Row::serialize`, `Row::deserialize`,
    `Row::write_string`, `Row::read_string`). A row is an id and two text
    fields; text is handled here as its bytes (the UTF-8 decoding done on
    the way out is not modelled). */
module RowCodec {
  import opened Bytes
  import opened Layout

  datatype Row = Row(id: u32, username: seq<byte>, email: seq<byte>)

  predicate NoZero(s: seq<byte>)
  {
    forall i :: 0 <= i < |s| ==> s[i] != 0
  }

  /** What `write_string(buf, pos, s, length)` leaves at `pos`: the bytes of
      `s`, then zeros up to `length` bytes (no zeros when `s` is longer). */
  function Padded(s: seq<byte>, length: nat): (r: seq<byte>)
    ensures |r| == if |s| < length then length else |s|
    ensures r[..|s|] == s
    ensures forall i :: |s| <= i < |r| ==> r[i] == 0
  {
    if |s| < length then s + Zeros(length - |s|) else s
  }

  /** `serialize` indexes a ROW_SIZE buffer: it panics unless the username
      ends inside the row and the email inside its own field. */
  predicate Serializable(row: Row)
  {
    USERNAME_OFFSET + |row.username| <= ROW_SIZE && |row.email| <= EMAIL_SIZE
  }

  /** The lengths for which every field stays inside its own slot. */
  predicate FieldsFit(row: Row)
  {
    |row.username| <= USERNAME_SIZE && |row.email| <= EMAIL_SIZE
  }

  /** The bytes `serialize` produces: a zeroed ROW_SIZE buffer, then the id,
      then the username field, then the email field, each write over the last. */
  function SerializedRow(row: Row): (r: seq<byte>)
    requires Serializable(row)
    ensures |r| == ROW_SIZE
    ensures ReadU32(r, ID_OFFSET) == row.id
    ensures r[USERNAME_OFFSET..EMAIL_OFFSET] == Padded(row.username, USERNAME_SIZE)[..USERNAME_SIZE]
    ensures r[EMAIL_OFFSET..ROW_SIZE] == Padded(row.email, EMAIL_SIZE)
  {
    var withId := WriteU32(Zeros(ROW_SIZE), ID_OFFSET, row.id);
    var withName := Overwrite(withId, USERNAME_OFFSET, Padded(row.username, USERNAME_SIZE));
    var r := Overwrite(withName, EMAIL_OFFSET, Padded(row.email, EMAIL_SIZE));
    assert r[ID_OFFSET..ID_OFFSET + 4] == withId[ID_OFFSET..ID_OFFSET + 4];
    assert r[USERNAME_OFFSET..EMAIL_OFFSET] == withName[USERNAME_OFFSET..EMAIL_OFFSET];
    assert withName[USERNAME_OFFSET..EMAIL_OFFSET] == Padded(row.username, USERNAME_SIZE)[..USERNAME_SIZE];
    r
  }

  /** `write_string`: the bytes of `s` one by one, then zeros while `i < length`. */
  method WriteString(buf: array<byte>, pos: nat, s: seq<byte>, length: nat)
    requires pos + |s| <= buf.Length && pos + length <= buf.Length
    modifies buf
    ensures buf[..] == Overwrite(old(buf[..]), pos, Padded(s, length))
  {
    ghost var want := Overwrite(old(buf[..]), pos, Padded(s, length));
    var i := 0;
    while i < |s|
      invariant 0 <= i <= |s|
      invariant forall k :: 0 <= k < buf.Length && !(pos <= k < pos + i) ==> buf[k] == old(buf[k])
      invariant forall k :: pos <= k < pos + i ==> buf[k] == s[k - pos]
    {
      buf[pos + i] := s[i];
      i := i + 1;
    }
    while i < length
      invariant |s| <= i && (i <= length || i == |s|)
      invariant forall k :: 0 <= k < buf.Length && !(pos <= k < pos + i) ==> buf[k] == old(buf[k])
      invariant forall k :: pos <= k < pos + |s| ==> buf[k] == s[k - pos]
      invariant forall k :: pos + |s| <= k < pos + i ==> buf[k] == 0
    {
      buf[pos + i] := 0;
      i := i + 1;
    }
    ghost var p := Padded(s, length);
    assert i == |p|;
    forall k | 0 <= k < buf.Length
      ensures buf[k] == want[k]
    {
      if pos <= k < pos + |p| {
        assert want[pos..pos + |p|][k - pos] == p[k - pos];
        if k - pos < |s| {
          assert p[..|s|][k - pos] == s[k - pos];
        }
      }
    }
    assert buf[..] == want;
  }

  /** `Row::serialize`: a fresh zeroed buffer of ROW_SIZE bytes with the id at
      offset 0, the username at 4 and the email at 37. */
  method Serialize(row: Row) returns (buf: seq<byte>)
    requires Serializable(row)
    ensures buf == SerializedRow(row)
  {
    var a := new byte[ROW_SIZE](_ => 0);
    assert a[..] == Zeros(ROW_SIZE);
    var id := LeBytes(row.id);
    a[0], a[1], a[2], a[3] := id[0], id[1], id[2], id[3];
    assert a[..] == WriteU32(Zeros(ROW_SIZE), ID_OFFSET, row.id);
    WriteString(a, USERNAME_OFFSET, row.username, USERNAME_SIZE);
    WriteString(a, EMAIL_OFFSET, row.email, EMAIL_SIZE);
    buf := a[..];
  }

  /** What `read_string` returns from a field: its bytes up to the first zero,
      or all of them when there is none. */
  function TakeUntilZero(s: seq<byte>): (r: seq<byte>)
    ensures |r| <= |s| && r == s[..|r|]
    ensures NoZero(r)
    ensures |r| < |s| ==> s[|r|] == 0
  {
    if s == [] || s[0] == 0 then [] else [s[0]] + TakeUntilZero(s[1..])
  }

  /** A zero-free prefix that ends at a zero or at the end is what
      TakeUntilZero returns. */
  lemma {:induction false} TakeUntilZeroUnique(s: seq<byte>, k: nat)
    requires k <= |s| && NoZero(s[..k]) && (k < |s| ==> s[k] == 0)
    ensures TakeUntilZero(s) == s[..k]
  {
  }

  /** `read_string`: advance `end` while inside the field and not at a zero. */
  method ReadString(buf: seq<byte>, pos: nat, length: nat) returns (s: seq<byte>)
    requires pos + length <= |buf|
    ensures s == TakeUntilZero(buf[pos..pos + length])
  {
    var end := pos;
    while end - pos < length && buf[end] != 0
      invariant pos <= end <= pos + length
      invariant forall k :: pos <= k < end ==> buf[k] != 0
    {
      end := end + 1;
    }
    s := buf[pos..end];
    ghost var field := buf[pos..pos + length];
    assert field[..end - pos] == s;
    TakeUntilZeroUnique(field, end - pos);
  }

  /** The row `deserialize` reads back from ROW_SIZE bytes. */
  function DecodeRow(b: seq<byte>): (row: Row)
    requires |b| == ROW_SIZE
    ensures |row.username| <= USERNAME_SIZE && |row.email| <= EMAIL_SIZE
    ensures NoZero(row.username) && NoZero(row.email)
    ensures row.id == ReadU32(b, ID_OFFSET)
  {
    Row(ReadU32(b, ID_OFFSET),
        TakeUntilZero(b[USERNAME_OFFSET..EMAIL_OFFSET]),
        TakeUntilZero(b[EMAIL_OFFSET..ROW_SIZE]))
  }

  /** `Row::deserialize(buf, pos)`: copy ROW_SIZE bytes from `pos`, then read the fields. */
  method Deserialize(buf: seq<byte>, pos: nat) returns (row: Row)
    requires pos + ROW_SIZE <= |buf|
    ensures row == DecodeRow(buf[pos..pos + ROW_SIZE])
  {
    var bytes := buf[pos..pos + ROW_SIZE];
    var id := LeValue(bytes[..ID_SIZE]);
    var username := ReadString(bytes, USERNAME_OFFSET, USERNAME_SIZE);
    var email := ReadString(bytes, EMAIL_OFFSET, EMAIL_SIZE);
    row := Row(id, username, email);
  }

  /** A zero-free string that fits its field is read back unchanged. */
  lemma ReadBackPadded(s: seq<byte>, length: nat)
    requires |s| <= length && NoZero(s)
    ensures TakeUntilZero(Padded(s, length)) == s
  {
    var p := Padded(s, length);
    assert p[..|s|] == s;
    TakeUntilZeroUnique(p, |s|);
  }

  /** Round trip: deserialize(serialize(r)) == r for every row whose fields fit
      their slots and hold no zero byte. */
  lemma RoundTrip(row: Row)
    requires FieldsFit(row) && NoZero(row.username) && NoZero(row.email)
    ensures DecodeRow(SerializedRow(row)) == row
  {
    var b := SerializedRow(row);
    ReadBackPadded(row.username, USERNAME_SIZE);
    ReadBackPadded(row.email, EMAIL_SIZE);
    assert Padded(row.username, USERNAME_SIZE)[..USERNAME_SIZE] == Padded(row.username, USERNAME_SIZE);
  }

  /** For rows whose fields fit, the round trip holds exactly when neither field
      contains a zero byte: an embedded zero truncates the field on the way back. */
  lemma RoundTripExactly(row: Row)
    requires FieldsFit(row)
    ensures DecodeRow(SerializedRow(row)) == row <==> NoZero(row.username) && NoZero(row.email)
  {
    if NoZero(row.username) && NoZero(row.email) {
      RoundTrip(row);
    }
  }

  /** A username longer than its 33-byte field runs into the email field, which
      the email write then covers: only the first 33 bytes survive. */
  lemma LongUsernameTruncated(row: Row)
    requires Serializable(row) && |row.username| > USERNAME_SIZE
    ensures DecodeRow(SerializedRow(row)).username == TakeUntilZero(row.username[..USERNAME_SIZE])
    ensures DecodeRow(SerializedRow(row)) != row
  {
    var p := Padded(row.username, USERNAME_SIZE);
    assert p == row.username;
  }
}
