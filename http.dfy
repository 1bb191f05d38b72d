/**
 * What the extractor sees of an HTTP exchange: a status, headers looked up
 * without regard to case (a requests CaseInsensitiveDict), the decoded body
 * and the length of the raw body.
 */
module Http {
  import opened Wrappers
  import opened Text

  datatype Header = Header(name: string, value: string)

  type Headers = seq<Header>

  datatype Response = Response(status: int, headers: Headers, text: string, contentLength: nat)

  /** A requests Response is truthy when its status is not a client or server error. */
  predicate IsOk(status: int) {
    !(400 <= status < 600)
  }

  /** `if response:` after make_request: a response came back and it is truthy. */
  predicate Truthy(response: Option<Response>) {
    response.Some? && IsOk(response.value.status)
  }

  predicate SameName(a: string, b: string) {
    Lower(a) == Lower(b)
  }

  /** headers[name]: the value of the first header whose name equals name ignoring case. */
  function Lookup(headers: Headers, name: string): (r: Option<string>)
    ensures r.Some? <==> exists i :: 0 <= i < |headers| && SameName(headers[i].name, name)
    ensures r.Some? ==>
      exists i :: 0 <= i < |headers| && SameName(headers[i].name, name) && r.value == headers[i].value
        && forall j :: 0 <= j < i ==> !SameName(headers[j].name, name)
  {
    if headers == [] then None
    else if SameName(headers[0].name, name) then Some(headers[0].value)
    else
      var r := Lookup(headers[1..], name);
      assert forall i :: 1 <= i < |headers| ==> headers[i] == headers[1..][i - 1];
      r
  }

  /** `name in headers` */
  predicate Has(headers: Headers, name: string) {
    Lookup(headers, name).Some?
  }

  function Quoted(s: string): string {
    "'" + s + "'"
  }

  function EntryText(h: Header): string {
    Quoted(h.name) + ": " + Quoted(h.value)
  }

  function EntriesText(headers: Headers): string {
    if headers == [] then ""
    else if |headers| == 1 then EntryText(headers[0])
    else EntryText(headers[0]) + ", " + EntriesText(headers[1..])
  }

  /** str(headers): the printed form of the header dictionary. */
  function HeadersText(headers: Headers): string {
    "{" + EntriesText(headers) + "}"
  }

  /** Every header's value appears in the printed form of the headers. */
  lemma {:induction false} HeadersTextShowsValues(headers: Headers, i: nat)
    requires i < |headers|
    ensures Contains(HeadersText(headers), headers[i].value)
  {
    EntriesTextShowsValues(headers, i);
    ContainsParts("{" + EntriesText(headers), "}");
    ContainsParts("{", EntriesText(headers));
    ContainsTransitive("{" + EntriesText(headers), EntriesText(headers), headers[i].value);
    ContainsTransitive(HeadersText(headers), "{" + EntriesText(headers), headers[i].value);
  }

  lemma {:induction false} EntriesTextShowsValues(headers: Headers, i: nat)
    requires i < |headers|
    ensures Contains(EntriesText(headers), headers[i].value)
  {
    var h := headers[0];
    var entry := EntryText(h);
    if i == 0 {
      ContainsParts("'" + h.value, "'");
      ContainsParts("'", h.value);
      ContainsTransitive(Quoted(h.value), "'" + h.value, h.value);
      ContainsParts(Quoted(h.name) + ": ", Quoted(h.value));
      ContainsTransitive(entry, Quoted(h.value), h.value);
      if |headers| > 1 {
        ContainsParts(entry + ", ", EntriesText(headers[1..]));
        ContainsParts(entry, ", ");
        ContainsTransitive(entry + ", ", entry, h.value);
        ContainsTransitive(EntriesText(headers), entry + ", ", h.value);
      }
    } else {
      EntriesTextShowsValues(headers[1..], i - 1);
      ContainsParts(entry + ", ", EntriesText(headers[1..]));
      ContainsTransitive(EntriesText(headers), EntriesText(headers[1..]), headers[i].value);
    }
  }
}
