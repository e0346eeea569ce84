/**
 The transfer route: the gate, the row under its unique key (initiator, idempotency key), and
 the event published once the row is committed. Amounts are in cents.
 */
module Transfers {
  import opened Wrappers
  import opened Money
  import AuthFlow

  datatype Payload = Payload(src: string, dst: string, amount: int, currency: string, memo: Option<string>, key: string)

  const PENDING := "pending"

  datatype Row = Row(id: string, user: string, payload: Payload, risk: real, status: string)

  /** The table, by its unique key. */
  type Rows = map<(string, string), Row>

  /** What is published: the id of the row, with the fields of the request at hand. */
  datatype Published = Published(
    tx: string, user: string, src: string, dst: string, amount: int, currency: string, memo: Option<string>,
    risk: real, mfa: bool)

  datatype Receipt = Receipt(
    id: string, status: string, amount: int, currency: string, src: string, dst: string, risk: real)

  datatype Reply = Refused(status: nat) | Done(receipt: Receipt)

  /** The table after a request: a new row, or the row already there. */
  function AfterInsert(rows: Rows, user: string, p: Payload, id: string, risk: real): Rows {
    if (user, p.key) in rows then rows else rows[(user, p.key) := Row(id, user, p, risk, PENDING)]
  }

  function RowOf(rows: Rows, user: string, p: Payload, id: string, risk: real): Row {
    AfterInsert(rows, user, p, id, risk)[(user, p.key)]
  }

  function EventOf(row: Row, user: string, p: Payload, risk: real, mfa: bool): Published {
    Published(row.id, user, p.src, p.dst, p.amount, p.currency, p.memo, risk, mfa)
  }

  function ReceiptOf(row: Row): Receipt {
    Receipt(row.id, row.status, row.payload.amount, row.payload.currency, row.payload.src, row.payload.dst, row.risk)
  }

  class TransferService {
    var rows: Rows
    var topic: seq<Published>

    constructor ()
      ensures rows == map[] && topic == []
    {
      rows, topic := map[], [];
    }

    /**
     `transfer` at time `now`, with the id drawn for a new row and the risk score of the request.
     `flushFails` stands for any failure of the insertion other than a clash of keys.
     */
    method Transfer(c: AuthFlow.Claims, p: Payload, id: string, risk: real, now: nat, flushFails: bool)
      returns (r: Reply)
      modifies this
      ensures r.Done? <==>
        && AuthFlow.Gate(c, now, p.amount) == AuthFlow.Accepted
        && (flushFails ==> (c.sub, p.key) in old(rows))
      ensures r.Done? ==>
        && rows == AfterInsert(old(rows), c.sub, p, id, risk)
        && r.receipt == ReceiptOf(RowOf(old(rows), c.sub, p, id, risk))
        && topic == old(topic) + [EventOf(RowOf(old(rows), c.sub, p, id, risk), c.sub, p, risk, c.mfa)]
      ensures r.Done? && (c.sub, p.key) !in old(rows) ==>
        r.receipt == Receipt(id, "pending", p.amount, p.currency, p.src, p.dst, risk)
      ensures r.Done? && (c.sub, p.key) in old(rows) ==>
        var row := old(rows)[(c.sub, p.key)];
        var q := row.payload;
        r.receipt == Receipt(row.id, row.status, q.amount, q.currency, q.src, q.dst, row.risk)
      ensures !r.Done? ==> rows == old(rows) && topic == old(topic) && r == Refused(
        match AuthFlow.Gate(c, now, p.amount)
        case Expired => 401
        case WrongToken => 401
        case BadAmount => 422
        case StepUpNeeded => 401
        case Denied => 403
        case Accepted => 409)
    {
      if c.exp <= now || c.typ != AuthFlow.Access { return Refused(401); }
      if !ValidAmount(p.amount) { return Refused(422); }
      if AuthFlow.StepUpRequired(p.amount) && !c.mfa { return Refused(401); }
      if !AuthFlow.PolicyAllows(c.roles, c.mfa, p.amount) { return Refused(403); }
      var tx := Row(id, c.sub, p, risk, "pending");
      if flushFails || (c.sub, p.key) in rows {
        // The flush fails: look for the row of an earlier request with this key.
        if (c.sub, p.key) !in rows { return Refused(409); }
        tx := rows[(c.sub, p.key)];
      } else {
        rows := rows[(c.sub, p.key) := tx];
      }
      topic := topic + [Published(tx.id, c.sub, p.src, p.dst, p.amount, p.currency, p.memo, risk, c.mfa)];
      var stored := tx.payload;
      r := Done(Receipt(tx.id, tx.status, stored.amount, stored.currency, stored.src, stored.dst, tx.risk));
    }
  }
}
