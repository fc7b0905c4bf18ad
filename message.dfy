/** The payload a publisher sends and a subscriber receives. */
module Messages {
  import opened Subscriptions

  /** A message's text and the application it is attributed to. */
  datatype Message = Message(content: string, sender: Guid)
}
