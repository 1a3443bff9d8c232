/*
 * The table's one row schema (the `row` struct of include/db.h) and its
 * fixed-offset serialisation: id at ID_OFFSET, username at USERNAME_OFFSET,
 * email at EMAIL_OFFSET, ROW_SIZE bytes in all, no delimiters.
 */
module Rows {
  import opened Layout
  import opened Memory

  /** The fields of a row: a u32 id and the two fixed-width C character arrays. */
  datatype RowFields = Row(id: u32, username: seq<byte>, email: seq<byte>)

  /** A row as the struct holds it: `char username[33]` and `char email[256]`. */
  type Row = r: RowFields | |r.username| == USERNAME_SIZE && |r.email| == EMAIL_SIZE
    witness Row(0, seq(USERNAME_SIZE, _ => 0), seq(EMAIL_SIZE, _ => 0))

  /**
   * The ROW_SIZE bytes that `serialize_row` lays down for r: the id at
   * ID_OFFSET, reading back as r.id, then the username and email fields.
   */
  function SerializeRow(r: Row): (b: seq<byte>)
    ensures |b| == ROW_SIZE
    ensures ReadU32(b, ID_OFFSET) == r.id
    ensures b[USERNAME_OFFSET..EMAIL_OFFSET] == r.username && b[EMAIL_OFFSET..] == r.email
  {
    var b := U32Bytes(r.id) + r.username + r.email;
    assert b[..4] == U32Bytes(r.id);
    b
  }

  /** The row that `deserialize_row` reads back from ROW_SIZE bytes: the one row whose serialisation they are. */
  function DeserializeRow(b: seq<byte>): (r: Row)
    requires |b| == ROW_SIZE
    ensures SerializeRow(r) == b
  {
    U32BytesOfRead(b, ID_OFFSET);
    assert b == b[..4] + b[USERNAME_OFFSET..EMAIL_OFFSET] + b[EMAIL_OFFSET..ROW_SIZE];
    Row(ReadU32(b, ID_OFFSET), b[USERNAME_OFFSET..EMAIL_OFFSET], b[EMAIL_OFFSET..ROW_SIZE])
  }

  /** Deserialising a serialised row gives the row back, every field exactly. */
  lemma DeserializeSerialize(r: Row)
    ensures DeserializeRow(SerializeRow(r)) == r
  {
    var b := SerializeRow(r);
    assert b[EMAIL_OFFSET..ROW_SIZE] == r.email;
  }

  /** The C string a character field holds: its bytes up to the first NUL. */
  function Text(field: seq<byte>): (s: seq<byte>)
    ensures |s| <= |field| && s == field[..|s|]
    ensures 0 !in s
  {
    if field == [] || field[0] == 0 then [] else [field[0]] + Text(field[1..])
  }

  /** A string copied into a field with its terminator reads back unchanged, whatever follows the terminator. */
  lemma {:induction false} TextOfTerminated(s: seq<byte>, rest: seq<byte>)
    requires 0 !in s
    ensures Text(s + [0] + rest) == s
  {
    if s != [] {
      assert (s + [0] + rest)[1..] == s[1..] + [0] + rest;
      TextOfTerminated(s[1..], rest);
    }
  }

  /**
   * A username of COLUMN_USERNAME_SIZE characters and an email of
   * COLUMN_EMAIL_SIZE characters, each stored with its terminator, fill their
   * fields exactly and come back unchanged from a serialise/deserialise round trip.
   */
  lemma MaxLengthTextRoundTrip(id: u32, name: seq<byte>, mail: seq<byte>)
    requires |name| == COLUMN_USERNAME_SIZE && 0 !in name
    requires |mail| == COLUMN_EMAIL_SIZE && 0 !in mail
    ensures |name + [0]| == USERNAME_SIZE && |mail + [0]| == EMAIL_SIZE
    ensures var r := DeserializeRow(SerializeRow(Row(id, name + [0], mail + [0])));
            r.id == id && Text(r.username) == name && Text(r.email) == mail
  {
    DeserializeSerialize(Row(id, name + [0], mail + [0]));
    TextOfTerminated(name, []);
    TextOfTerminated(mail, []);
    assert name + [0] + [] == name + [0];
    assert mail + [0] + [] == mail + [0];
  }
}
