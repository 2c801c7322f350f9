/** The library's single exported function. */
module Greeting {
  import opened Optional

  const Salutation := "Hello, "

  /** `Hello, ${name}!`: the salutation, the name unchanged, then an exclamation mark. */
  function Greet(name: string): (r: string)
    ensures |r| == |name| + 8
    ensures r[..|Salutation|] == Salutation
    ensures r[|Salutation|..|r| - 1] == name
    ensures r[|r| - 1] == '!'
  {
    Salutation + name + "!"
  }

  /** Reads the name back out of a greeting, or `None` when the text is not one. */
  function GreetedName(g: string): (r: Option<string>)
    ensures r.Some? ==> |r.value| + 8 == |g|
  {
    if |g| >= 8 && g[..|Salutation|] == Salutation && g[|g| - 1] == '!'
    then Some(g[|Salutation|..|g| - 1])
    else None
  }

  /** The name can be read back from its greeting. */
  lemma GreetRoundTrip(name: string)
    ensures GreetedName(Greet(name)) == Some(name)
  {
  }

  /** Whatever is read back from a greeting greets to that same greeting. */
  lemma GreetedNameSound(g: string)
    requires GreetedName(g).Some?
    ensures Greet(GreetedName(g).value) == g
  {
    var name := GreetedName(g).value;
    assert g == g[..|Salutation|] + name + [g[|g| - 1]];
  }

  /** Different names give different greetings. */
  lemma GreetInjective(a: string, b: string)
    requires Greet(a) == Greet(b)
    ensures a == b
  {
    GreetRoundTrip(a);
    GreetRoundTrip(b);
  }

  /** The two cases the test suite pins. */
  lemma GreetExamples()
    ensures Greet("John") == "Hello, John!"
    ensures Greet("") == "Hello, !"
  {
  }
}
