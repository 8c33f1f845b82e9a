/** The text `ListMessages` produces for an inbox. */
module Inbox {
  import opened Decimal
  import opened Sequences
  import opened Forum

  const NoMessages := "No messages."

  function ListingHeader(name: string): string {
    "Direct messages for " + name + ":\n"
  }

  function MessageLine(n: nat, m: Message): string {
    NatToDecimal(n) + ". From " + m.sender + ": " + m.content + "\n"
  }

  /** The messages `msgs`, one line each, numbered from `first` in arrival order. */
  function Numbered(msgs: seq<Message>, first: nat): string
    decreases |msgs|
  {
    if msgs == [] then "" else MessageLine(first, msgs[0]) + Numbered(msgs[1..], first + 1)
  }

  /** The listing of a non-empty inbox starts with its header; an empty one is the sentinel. */
  function Listing(name: string, inbox: seq<Message>): (r: string)
    ensures inbox == [] <==> r == NoMessages
    ensures inbox != [] ==> |ListingHeader(name)| <= |r| && r[..|ListingHeader(name)|] == ListingHeader(name)
  {
    if inbox == [] then NoMessages
    else
      var r := ListingHeader(name) + Numbered(inbox, 1);
      assert r[0] == 'D' != NoMessages[0];
      r
  }

  /** A message that arrives last is listed last, under the next number. */
  lemma {:induction false} NumberedAppend(msgs: seq<Message>, m: Message, first: nat)
    ensures Numbered(msgs + [m], first) == Numbered(msgs, first) + MessageLine(first + |msgs|, m)
    decreases |msgs|
  {
    if msgs == [] {
      assert [m][1..] == [];
    } else {
      assert (msgs + [m])[1..] == msgs[1..] + [m];
      NumberedAppend(msgs[1..], m, first + 1);
      Reassociate(MessageLine(first, msgs[0]), Numbered(msgs[1..], first + 1), MessageLine(first + |msgs|, m));
    }
  }

  /** Listing two runs of messages one after the other continues the numbering. */
  lemma {:induction false} NumberedConcat(a: seq<Message>, b: seq<Message>, first: nat)
    ensures Numbered(a + b, first) == Numbered(a, first) + Numbered(b, first + |a|)
    decreases |a|
  {
    if a == [] {
      assert a + b == b;
    } else {
      assert (a + b)[1..] == a[1..] + b;
      NumberedConcat(a[1..], b, first + 1);
      Reassociate(MessageLine(first, a[0]), Numbered(a[1..], first + 1), Numbered(b, first + |a|));
    }
  }

  /** The k-th message (from 0) sits on the line numbered `first + k`, after all earlier messages. */
  lemma NumberedAt(msgs: seq<Message>, first: nat, k: nat)
    requires k < |msgs|
    ensures Numbered(msgs, first)
         == Numbered(msgs[..k], first) + MessageLine(first + k, msgs[k]) + Numbered(msgs[k + 1..], first + k + 1)
  {
    assert msgs == msgs[..k] + ([msgs[k]] + msgs[k + 1..]);
    NumberedConcat(msgs[..k], [msgs[k]] + msgs[k + 1..], first);
    assert ([msgs[k]] + msgs[k + 1..])[1..] == msgs[k + 1..];
    Reassociate(Numbered(msgs[..k], first), MessageLine(first + k, msgs[k]), Numbered(msgs[k + 1..], first + k + 1));
  }

  /** Sending one message to a user extends that user's listing by exactly one numbered line. */
  lemma ListingAfterSend(name: string, inbox: seq<Message>, m: Message)
    ensures Listing(name, inbox + [m])
         == (if inbox == [] then ListingHeader(name) else Listing(name, inbox)) + MessageLine(|inbox| + 1, m)
  {
    NumberedAppend(inbox, m, 1);
    if inbox == [] {
      assert inbox + [m] == [m];
    } else {
      Reassociate(ListingHeader(name), Numbered(inbox, 1), MessageLine(|inbox| + 1, m));
    }
  }
}
