/** The append-only `message` table and the two-party history query. */
module History {
  import opened Wrappers

  /** A row of the `message` table. Sender and receiver are usernames, not user ids. */
  datatype Message = Message(id: nat, sender: string, receiver: string, text: string)

  /** One element of get_history's answer: the message projected to its sender and text. */
  datatype Entry = Entry(sender: string, text: string)

  /** Rows are never deleted, so the primary keys are 1, 2, 3, ... in insertion order. */
  ghost predicate MessageIds(messages: seq<Message>) {
    forall i :: 0 <= i < |messages| ==> messages[i].id == i + 1
  }

  /**
   * The history filter: `m` went from the caller to the partner or from the partner to the caller.
   * A missing username (no username in the session, no partner in the request) is compared with
   * IS NULL. In this model every stored sender and receiver is a string, never NULL, so no row
   * matches then.
   */
  predicate Between(m: Message, me: Option<string>, partner: Option<string>) {
    && me.Some? && partner.Some?
    && ((m.sender == me.value && m.receiver == partner.value) || (m.sender == partner.value && m.receiver == me.value))
  }

  /** The messages passing the history filter, in table order. */
  function Conversation(messages: seq<Message>, me: Option<string>, partner: Option<string>): (r: seq<Message>)
    ensures |r| <= |messages|
    ensures forall k :: 0 <= k < |r| ==> Between(r[k], me, partner)
  {
    if messages == [] then []
    else
      var n := |messages| - 1;
      Conversation(messages[..n], me, partner) + (if Between(messages[n], me, partner) then [messages[n]] else [])
  }

  /** The conversation holds exactly the stored messages that pass the filter. */
  lemma {:induction false} ConversationMembers(messages: seq<Message>, me: Option<string>, partner: Option<string>)
    ensures forall m :: m in Conversation(messages, me, partner) <==> m in messages && Between(m, me, partner)
  {
    if messages != [] {
      var n := |messages| - 1;
      ConversationMembers(messages[..n], me, partner);
      assert messages == messages[..n] + [messages[n]];
    }
  }

  /** get_history's answer: each message of the conversation as its sender and text. */
  function GetHistory(messages: seq<Message>, me: Option<string>, partner: Option<string>): (r: seq<Entry>)
    ensures forall e :: e in r <==>
      exists m :: m in messages && Between(m, me, partner) && e == Entry(m.sender, m.text)
  {
    var conv := Conversation(messages, me, partner);
    ConversationMembers(messages, me, partner);
    var r := seq(|conv|, i requires 0 <= i < |conv| => Entry(conv[i].sender, conv[i].text));
    assert forall m :: m in conv ==> Entry(m.sender, m.text) in r by {
      forall m | m in conv ensures Entry(m.sender, m.text) in r {
        var i :| 0 <= i < |conv| && conv[i] == m;
        assert r[i] == Entry(m.sender, m.text);
      }
    }
    r
  }

  /** A newly stored message comes last in the history of both of its parties, after every older one. */
  lemma HistoryAfterSend(messages: seq<Message>, m: Message, me: Option<string>, partner: Option<string>)
    ensures GetHistory(messages + [m], me, partner) ==
      GetHistory(messages, me, partner) + (if Between(m, me, partner) then [Entry(m.sender, m.text)] else [])
  {
    assert (messages + [m])[..|messages|] == messages;
  }

  /** Either party asking about the other sees the same conversation. */
  lemma {:induction false} ConversationSymmetric(messages: seq<Message>, a: string, b: string)
    ensures Conversation(messages, Some(a), Some(b)) == Conversation(messages, Some(b), Some(a))
  {
    if messages != [] {
      ConversationSymmetric(messages[..|messages| - 1], a, b);
    }
  }

  /** When every message passed between the two parties, in either direction, the history is all of them in send order. */
  lemma {:induction false} WholeConversation(messages: seq<Message>, a: string, b: string)
    requires forall i :: 0 <= i < |messages| ==> Between(messages[i], Some(a), Some(b))
    ensures Conversation(messages, Some(a), Some(b)) == messages
  {
    if messages != [] {
      var n := |messages| - 1;
      var init := messages[..n];
      WholeConversation(init, a, b);
      assert messages == init + [messages[n]];
    }
  }
}
