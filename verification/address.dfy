/** The recipient's mail domain: the text after the last '@' of the
    address given on the command line. */
module Address {
  import opened Results
  import opened Substrings

  datatype AddressError = MissingAt

  /** `strings.LastIndex(to, "@")` then `to[at+1:]`; an address without
      '@' is refused before any lookup. */
  function Domain(to: string): (r: Result<string, AddressError>)
    ensures r.Ok? <==> '@' in to
  {
    var at := LastIndex(to, '@');
    if at < 0 then Err(MissingAt) else Ok(to[at + 1..])
  }

  /** The domain has no '@' and ends the address, right after an '@': it is
      what follows the last '@'. */
  lemma DomainAfterLastAt(to: string)
    ensures var r := Domain(to);
      r.Ok? ==> '@' !in r.value && OccursAt(to, "@" + r.value, |to| - |r.value| - 1)
  {
    var at := LastIndex(to, '@');
    if at >= 0 {
      assert to[at..] == "@" + to[at + 1..];
    }
  }

  /** The domain of `local@domain` is `domain` whenever the domain part has
      no '@', whatever the local part holds (it may hold '@' itself). */
  lemma DomainOfJoin(local: string, domain: string)
    requires '@' !in domain
    ensures Domain(local + "@" + domain) == Ok(domain)
  {
    var to := local + "@" + domain;
    var r := Domain(to);
    assert to[|local|] == '@';
    assert r.Ok?;
    var d := r.value;
    assert |d| >= |domain| ==> to[|to| - |d|..] == d;
    assert to[|to| - |domain|..] == domain;
    assert d == domain;
  }
}
