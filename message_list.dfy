/** The narrow chat screen's message list: a date separator before each
    message that starts a new calendar day, and each bubble aligned right when
    the current user sent it. The calendar day of a timestamp is a parameter
    `dayOf`, standing for the local-time year, month and date that the screen
    compares. */
module MessageList {
  import opened Base
  import opened Reconciler

  /** One rendered message: whether a date separator precedes it, and whether
      it is aligned right (`justify-end`). */
  datatype Row = Row(dateSeparator: bool, alignRight: bool, record: Record)

  /** A separator goes before the first message, and before every message
      whose day differs from the day of the message just before it. */
  predicate ShowsDate(messages: seq<Record>, i: nat, dayOf: int -> int)
    requires i < |messages|
  {
    i == 0 || dayOf(messages[i].timestamp) != dayOf(messages[i - 1].timestamp)
  }

  /** A bubble is aligned right when its sender is the current user; with no
      current user every bubble is aligned left. */
  predicate SentByMe(me: Option<UserId>, r: Record) {
    me == Some(r.senderId)
  }

  /** The grouping pass over the list, carrying the previous message's day. */
  method RenderRows(messages: seq<Record>, me: Option<UserId>, dayOf: int -> int) returns (rows: seq<Row>)
    ensures |rows| == |messages|
    ensures forall i :: 0 <= i < |rows| ==>
      rows[i] == Row(ShowsDate(messages, i, dayOf), SentByMe(me, messages[i]), messages[i])
  {
    rows := [];
    var lastDate: Option<int> := None;
    for i := 0 to |messages|
      invariant |rows| == i
      invariant forall j :: 0 <= j < i ==>
        rows[j] == Row(ShowsDate(messages, j, dayOf), SentByMe(me, messages[j]), messages[j])
      invariant i == 0 <==> lastDate.None?
      invariant i > 0 ==> lastDate == Some(dayOf(messages[i - 1].timestamp))
    {
      var msgDate := dayOf(messages[i].timestamp);
      var showDate := lastDate.None? || msgDate != lastDate.value;
      assert showDate == ShowsDate(messages, i, dayOf);
      lastDate := Some(msgDate);
      var row := Row(showDate, me == Some(messages[i].senderId), messages[i]);
      assert row == Row(ShowsDate(messages, i, dayOf), SentByMe(me, messages[i]), messages[i]);
      rows := rows + [row];
    }
  }

  /** On a list in time order (days never decrease), a message gets a separator
      exactly when no earlier message falls on its day: each day is announced
      once, before its first message. */
  lemma SeparatorMarksFirstOfDay(messages: seq<Record>, dayOf: int -> int, i: nat)
    requires forall a, b :: 0 <= a < b < |messages| ==> dayOf(messages[a].timestamp) <= dayOf(messages[b].timestamp)
    requires i < |messages|
    ensures ShowsDate(messages, i, dayOf) <==>
      forall j :: 0 <= j < i ==> dayOf(messages[j].timestamp) != dayOf(messages[i].timestamp)
  {
    if i > 0 && !ShowsDate(messages, i, dayOf) {
      assert dayOf(messages[i - 1].timestamp) == dayOf(messages[i].timestamp);
    }
  }
}
