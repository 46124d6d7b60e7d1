/** The nullable time of the server (server/util/json.go): `util.NullTime`,
    which travels as JSON, and `sql.NullTime`, which the store keeps.  Times
    are instants as integers; the JSON encoding of a valid time belongs to
    `encoding/json` and is a parameter here. */
module JsonTime {

  type Bytes = seq<bv8>

  /** `util.NullTime` */
  datatype NullTime = NullTime(time: int, valid: bool)

  /** `sql.NullTime` */
  datatype SqlNullTime = SqlNullTime(time: int, valid: bool)

  /** `util.NullStr`, the bytes of "null". */
  const NullStr: Bytes := [0x6e, 0x75, 0x6c, 0x6c]

  function ConvertNullTime(t: NullTime): (r: SqlNullTime)
    ensures r.time == t.time && r.valid == t.valid
  {
    SqlNullTime(t.time, t.valid)
  }

  function ConvertSqlNullTime(t: SqlNullTime): (r: NullTime)
    ensures r.time == t.time && r.valid == t.valid
  {
    NullTime(t.time, t.valid)
  }

  /** The two conversions undo each other. */
  lemma ConversionsAreInverse(t: NullTime, s: SqlNullTime)
    ensures ConvertSqlNullTime(ConvertNullTime(t)) == t
    ensures ConvertNullTime(ConvertSqlNullTime(s)) == s
  {
  }

  /** `NullTime.MarshalJSON`: "null" for an invalid time, otherwise what
      `encode` makes of the time. */
  function MarshalJSON(t: NullTime, encode: int -> Bytes): (r: Bytes)
    ensures !t.valid ==> r == NullStr
    ensures t.valid ==> r == encode(t.time)
  {
    if !t.valid then NullStr else encode(t.time)
  }

  /** The receiver and error `UnmarshalJSON` leaves behind, starting from
      `prev`.  `decode(data)` is the time `json.Unmarshal` leaves in its
      target together with whether it reported an error. */
  function Unmarshalled(prev: NullTime, data: Bytes, decode: Bytes -> (int, bool)): (NullTime, bool)
  {
    if data == NullStr then (prev.(valid := false), false)
    else (NullTime(decode(data).0, true), decode(data).1)
  }

  /** A `util.NullTime` variable, which `UnmarshalJSON` updates in place. */
  class NullTimeVar {
    var time: int
    var valid: bool

    function Value(): NullTime
      reads this
    {
      NullTime(time, valid)
    }

    constructor(t: NullTime)
      ensures Value() == t
    {
      time, valid := t.time, t.valid;
    }

    /** `(*NullTime).UnmarshalJSON`; `failed` is a non-nil `err`. */
    method UnmarshalJSON(data: Bytes, decode: Bytes -> (int, bool)) returns (failed: bool)
      modifies this
      ensures (Value(), failed) == Unmarshalled(old(Value()), data, decode)
    {
      if data == NullStr {
        valid := false;
        failed := false;
        return;
      }
      var (result, err) := decode(data);
      time := result;
      valid := true;
      failed := err;
    }
  }

  /** "null" makes the time invalid and leaves its instant alone. */
  lemma UnmarshalNull(prev: NullTime, decode: Bytes -> (int, bool))
    ensures Unmarshalled(prev, NullStr, decode) == (NullTime(prev.time, false), false)
  {
  }

  /** Any other input makes the time valid, also when the parse failed. */
  lemma UnmarshalOther(prev: NullTime, data: Bytes, decode: Bytes -> (int, bool))
    requires data != NullStr
    ensures Unmarshalled(prev, data, decode).0.valid
    ensures Unmarshalled(prev, data, decode).1 <==> decode(data).1
  {
  }

  /** Round trip of an invalid time: it comes back invalid, with no error,
      and the receiver keeps its instant. */
  lemma RoundTripInvalid(t: NullTime, prev: NullTime, encode: int -> Bytes, decode: Bytes -> (int, bool))
    requires !t.valid
    ensures Unmarshalled(prev, MarshalJSON(t, encode), decode) == (NullTime(prev.time, false), false)
  {
  }

  /** Round trip of a valid time, for an encoding that never produces
      "null" and that `decode` reads back without error. */
  lemma RoundTripValid(t: NullTime, prev: NullTime, encode: int -> Bytes, decode: Bytes -> (int, bool))
    requires t.valid
    requires encode(t.time) != NullStr && decode(encode(t.time)) == (t.time, false)
    ensures Unmarshalled(prev, MarshalJSON(t, encode), decode) == (t, false)
  {
  }
}
