/**
 * The chat message and its decoder: the `MessageContent` struct of
 * FirebaseExample/ChatViewController.swift and its failable initialiser
 * `init?(dictionary:)`, which turns an untyped document record into a message.
 */
module Message {
  import opened Wrappers

  /**
   * A field value of a document record, reduced to the shapes the decoder
   * tells apart. A backend `Timestamp` is modelled by an integer ordering key.
   */
  datatype Value =
    | Str(s: string)
    | Ts(t: int)
      /** The placeholder a write asks the backend to replace by its commit time. */
    | ServerTimestamp
      /** Any other value: a number, a boolean, null, an array, a nested map. */
    | Other

  /** A document's data: field name to value. */
  type Record = map<string, Value>

  const UserIDKey: string := "userID"
  const MessageKey: string := "message"
  const OrderKey: string := "order"

  /** A decoded chat message. `order` is the ordering key the feed is sorted by. */
  datatype MessageContent = MessageContent(userID: string, message: string, order: int)

  /** The value stored under `key`, if any (a dictionary subscript). */
  function Field(rec: Record, key: string): (r: Option<Value>) {
    if key in rec then Some(rec[key]) else None
  }

  /** The conditional cast `as? String`. */
  function AsString(v: Option<Value>): (r: Option<string>) {
    match v
    case Some(Str(s)) => Some(s)
    case _ => None
  }

  /** The conditional cast `as? Timestamp`. */
  function AsTimestamp(v: Option<Value>): (r: Option<int>) {
    match v
    case Some(Ts(t)) => Some(t)
    case _ => None
  }

  predicate HasString(rec: Record, key: string) {
    key in rec && rec[key].Str?
  }

  predicate HasTimestamp(rec: Record, key: string) {
    key in rec && rec[key].Ts?
  }

  /** The shape a record must have for the decoder to accept it. */
  predicate WellFormed(rec: Record) {
    HasString(rec, UserIDKey) && HasString(rec, MessageKey) && HasTimestamp(rec, OrderKey)
  }

  /**
   * `MessageContent.init?(dictionary:)`: the three guarded casts in order;
   * the first that fails makes the whole initialiser return nil.
   */
  function Decode(rec: Record): (r: Option<MessageContent>)
    ensures r.Some? <==> WellFormed(rec)
    ensures r.Some? ==>
              && r.value.userID == rec[UserIDKey].s
              && r.value.message == rec[MessageKey].s
              && r.value.order == rec[OrderKey].t
  {
    match AsString(Field(rec, UserIDKey))
    case None => None
    case Some(userID) =>
      match AsString(Field(rec, MessageKey))
      case None => None
      case Some(message) =>
        match AsTimestamp(Field(rec, OrderKey))
        case None => None
        case Some(order) => Some(MessageContent(userID, message, order))
  }

  /** The record a well-formed document holding `m` carries in its three fields. */
  function Encode(m: MessageContent): (rec: Record)
    ensures WellFormed(rec)
  {
    map[UserIDKey := Str(m.userID), MessageKey := Str(m.message), OrderKey := Ts(m.order)]
  }

  /** Two records agree on `key`: both lack it or both hold the same value. */
  predicate AgreeOn(a: Record, b: Record, key: string) {
    Field(a, key) == Field(b, key)
  }

  /** The decoder consults only `userID`, `message` and `order`. */
  lemma DecodeReadsOnlyItsKeys(a: Record, b: Record)
    requires AgreeOn(a, b, UserIDKey) && AgreeOn(a, b, MessageKey) && AgreeOn(a, b, OrderKey)
    ensures Decode(a) == Decode(b)
  {
  }

  /** Extra fields, or a change to any other field, never change the decoded message. */
  lemma DecodeIgnoresOtherFields(rec: Record, key: string, v: Value)
    requires key != UserIDKey && key != MessageKey && key != OrderKey
    ensures Decode(rec[key := v]) == Decode(rec)
  {
    DecodeReadsOnlyItsKeys(rec[key := v], rec);
  }

  /** Decoding inverts encoding. */
  lemma DecodeEncode(m: MessageContent)
    ensures Decode(Encode(m)) == Some(m)
  {
  }

  /**
   * The other direction: a record decodes to `m` exactly when it agrees
   * with `Encode(m)` on the three fields the decoder reads.
   */
  lemma DecodeIsEncodeOnItsKeys(rec: Record, m: MessageContent)
    ensures Decode(rec) == Some(m) <==>
              (AgreeOn(rec, Encode(m), UserIDKey) && AgreeOn(rec, Encode(m), MessageKey)
               && AgreeOn(rec, Encode(m), OrderKey))
  {
    if Decode(rec) == Some(m) {
      assert rec[UserIDKey] == Str(m.userID);
      assert rec[MessageKey] == Str(m.message);
      assert rec[OrderKey] == Ts(m.order);
    }
    if AgreeOn(rec, Encode(m), UserIDKey) && AgreeOn(rec, Encode(m), MessageKey)
       && AgreeOn(rec, Encode(m), OrderKey) {
      DecodeReadsOnlyItsKeys(rec, Encode(m));
      DecodeEncode(m);
    }
  }
}
