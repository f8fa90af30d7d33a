/** The message validator of chapter4.go. */
module Messages {

  datatype User = User(name: string, number: int)

  datatype MessageToSend = MessageToSend(message: string, sender: User, recipient: User)

  /** A party can take part in a message when it has a name and a number. */
  predicate Reachable(u: User)
  {
    |u.name| > 0 && u.number != 0
  }

  /** canSendMessage: both names non-empty and both numbers non-zero. */
  predicate CanSendMessage(m: MessageToSend)
  {
    |m.sender.name| > 0 && |m.recipient.name| > 0 && m.sender.number != 0 && m.recipient.number != 0
  }

  /** The check is the same as asking that both parties be reachable. */
  lemma CanSendIffBothReachable(m: MessageToSend)
    ensures CanSendMessage(m) <==> Reachable(m.sender) && Reachable(m.recipient)
  {
  }

  /** The text of the message never changes the outcome. */
  lemma MessageTextIrrelevant(m: MessageToSend, text: string)
    ensures CanSendMessage(m.(message := text)) == CanSendMessage(m)
  {
  }

  /** The four messages of the harness: the first and third can be sent; the
      second (sender without a name, recipient number 0) and the fourth
      (sender number 0) cannot. */
  lemma HarnessCases()
    ensures CanSendMessage(MessageToSend("you have an appointment tommorow",
              User("Brenda Halafax", 16545550987), User("Sally Sue", 19035558973)))
    ensures !CanSendMessage(MessageToSend("you have an event tommorow",
              User("", 16545550987), User("Suzie Sall", 0)))
    ensures CanSendMessage(MessageToSend("you have an party tommorow",
              User("Njorn Halafax", 16545550987), User("Sally Sue", 19035558973)))
    ensures !CanSendMessage(MessageToSend("you have a birthday tommorow",
              User("Eli Halafax", 0), User("Whitaker Sue", 19035558973)))
  {
  }

  /** A sender without a name, or with number 0, can never send, whoever the
      recipient is. */
  lemma IncompleteSenderCannotSend(m: MessageToSend)
    requires |m.sender.name| == 0 || m.sender.number == 0
    ensures !CanSendMessage(m)
  {
  }
}
