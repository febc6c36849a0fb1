/** The user-facing validation messages, shared by the POST routes and the client forms. */
module Messages {
  const SearchError := "Enter a court or tribunal name"
  const CourtSearchError := "Enter a court name, address, town or city"
  const CourtOptionError := "Select whether you know the name of the court or tribunal"

  /** Text that can travel literally in a query value: no `%` escapes and no `&` separators. */
  predicate Plain(s: string) {
    '%' !in s && '&' !in s
  }

  lemma PlainConcat(a: string, b: string)
    requires Plain(a) && Plain(b)
    ensures Plain(a + b)
  {
    assert forall c :: c in a + b ==> c in a || c in b;
  }

  lemma SearchErrorPlain()
    ensures Plain(SearchError)
  {
  }

  lemma CourtSearchErrorPlain()
    ensures Plain(CourtSearchError)
  {
    assert Plain("Enter a court name, ");
    assert Plain("address, town or city");
    PlainConcat("Enter a court name, ", "address, town or city");
  }

  lemma CourtOptionErrorPlain()
    ensures Plain(CourtOptionError)
  {
    var a, b, c := "Select whether you know ", "the name of the ", "court or tribunal";
    assert Plain(a);
    assert Plain(b);
    assert Plain(c);
    PlainConcat(a, b);
    PlainConcat(a + b, c);
  }

  /** The three messages are safe to send as written. */
  lemma MessagesArePlain()
    ensures Plain(SearchError) && Plain(CourtSearchError) && Plain(CourtOptionError)
  {
    SearchErrorPlain();
    CourtSearchErrorPlain();
    CourtOptionErrorPlain();
  }
}
