/** Message headers as the mailbox returns them, and `headers.find(h => h.name === name)`. */
module Headers {
  import opened Wrappers

  datatype Header = Header(name: string, value: string)

  /** The position of the first header whose name is exactly `name` (names are case-sensitive). */
  function Find(headers: seq<Header>, name: string): (r: Option<nat>)
    ensures r.Some? ==> r.value < |headers| && headers[r.value].name == name
    ensures r.Some? ==> forall i :: 0 <= i < r.value ==> headers[i].name != name
    ensures r.None? ==> forall i :: 0 <= i < |headers| ==> headers[i].name != name
  {
    if |headers| == 0 then None
    else if headers[0].name == name then Some(0)
    else match Find(headers[1..], name)
      case None => None
      case Some(i) => Some(i + 1)
  }

  /** The value of that first header, if there is one. */
  function Lookup(headers: seq<Header>, name: string): Option<string> {
    match Find(headers, name)
    case None => None
    case Some(i) => Some(headers[i].value)
  }

  /** A lookup hits exactly when some header has the name, and then yields the first such value. */
  lemma LookupFirst(headers: seq<Header>, name: string, i: nat)
    requires i < |headers| && headers[i].name == name
    requires forall j :: 0 <= j < i ==> headers[j].name != name
    ensures Lookup(headers, name) == Some(headers[i].value)
  {
    var r := Find(headers, name);
    assert r.Some?;
    assert !(r.value < i) && !(r.value > i);
  }
}
