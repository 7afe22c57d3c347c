/** The top-level run: classify the fetched items, format the digest, and
    send it only when the formatted text is non-empty. */
module Pipeline {
  import opened News
  import opened Classifier
  import opened Formatter

  /** The text the run formats from the fetched items on the given date. */
  function Message(news: seq<Item>, date: string): string {
    Strip(Render(Classified(Categories, news), date))
  }

  /** One run as written: classify, format, and decide to send exactly when
      the message is a non-empty string. */
  method Run(news: seq<Item>, date: string) returns (message: string, send: bool)
    ensures message == Message(news, date)
    ensures send <==> message != []
  {
    var classified := ClassifyNews(news);
    message := FormatMessage(classified, date);
    send := message != [];
  }

  /** As written, the guard before sending always passes, so the "nothing to
      send" branch is dead. */
  lemma {:induction false} AlwaysSends(news: seq<Item>, date: string)
    ensures Message(news, date) != []
  {
    MessageStripped(Classified(Categories, news), date);
  }

  /** With no news at all, the run still sends a message: the bare header. */
  lemma {:induction false} EmptyRunSendsHeader(date: string)
    ensures Message([], date) == Header(date)
  {
    var d := Classified(Categories, []);
    ClassifiedPartition(Categories, []) by { CategoriesWellFormed(); }
    FlattenEmptyIff(d);
    HeaderOnlyIff(d, date);
  }

  /** The digest holds at least one item. */
  predicate HasNews(d: Digest) {
    exists k :: 0 <= k < |d| && d[k].1 != []
  }

  /** The send decision as intended: a message only when some category has
      an item, and then the formatted digest. */
  function Outgoing(news: seq<Item>, date: string): Option<string> {
    var d := Classified(Categories, news);
    if HasNews(d) then Some(Strip(Render(d, date))) else None
  }

  /** The intended decision sends exactly when there is news, and what it
      sends is always more than the bare header. */
  lemma {:induction false} OutgoingIff(news: seq<Item>, date: string)
    ensures Outgoing(news, date).None? <==> news == []
    ensures Outgoing(news, date).Some? ==>
      Outgoing(news, date).value == Message(news, date) && Message(news, date) != Header(date)
  {
    var d := Classified(Categories, news);
    CategoriesWellFormed();
    ClassifiedPartition(Categories, news);
    FlattenEmptyIff(d);
    HeaderOnlyIff(d, date);
  }
}
