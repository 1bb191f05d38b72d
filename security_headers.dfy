/**
 * The security-header audit of extract_http_headers: seven response headers
 * a hardened site is expected to send, each with the message recorded when
 * it is absent.
 */
module SecurityHeaders {
  import opened Text
  import opened Http
  import opened Sequences

  /** A header the audit asks for, and what is reported when it is absent. */
  datatype Requirement = Requirement(header: string, message: string)

  /** The audited headers in the order the audit visits them. */
  const Required := [
    Requirement("Strict-Transport-Security", "Missing HSTS header"),
    Requirement("Content-Security-Policy", "Missing CSP header"),
    Requirement("X-Content-Type-Options", "Missing X-Content-Type-Options header"),
    Requirement("X-Frame-Options", "Missing X-Frame-Options header"),
    Requirement("X-XSS-Protection", "Missing X-XSS-Protection header"),
    Requirement("Referrer-Policy", "Missing Referrer-Policy header"),
    Requirement("Permissions-Policy", "Missing Permissions-Policy header")
  ]

  /** The messages of the requirements whose header the response lacks, in requirement order. */
  function MissingOf(reqs: seq<Requirement>, headers: Headers): seq<string> {
    if reqs == [] then []
    else
      var last := reqs[|reqs| - 1];
      MissingOf(reqs[..|reqs| - 1], headers) + (if Has(headers, last.header) then [] else [last.message])
  }

  function Messages(reqs: seq<Requirement>): (ms: seq<string>)
    ensures |ms| == |reqs| && forall k :: 0 <= k < |reqs| ==> ms[k] == reqs[k].message
  {
    if reqs == [] then [] else Messages(reqs[..|reqs| - 1]) + [reqs[|reqs| - 1].message]
  }

  /** The loop of extract_http_headers that collects the messages of absent headers. */
  method FindMissing(reqs: seq<Requirement>, headers: Headers) returns (missing: seq<string>)
    ensures missing == MissingOf(reqs, headers)
  {
    missing := [];
    for i := 0 to |reqs|
      invariant missing == MissingOf(reqs[..i], headers)
    {
      assert reqs[..i + 1][..i] == reqs[..i];
      if !Has(headers, reqs[i].header) {
        missing := missing + [reqs[i].message];
      }
    }
    assert reqs[..|reqs|] == reqs;
  }

  /** A message is reported exactly when its header is absent (messages being distinct). */
  lemma {:induction false} MissingExactly(reqs: seq<Requirement>, headers: Headers, k: nat)
    requires Distinct(Messages(reqs)) && k < |reqs|
    ensures reqs[k].message in MissingOf(reqs, headers) <==> !Has(headers, reqs[k].header)
  {
    var n := |reqs| - 1;
    var init := reqs[..n];
    assert Messages(reqs) == Messages(init) + [reqs[n].message];
    assert Distinct(Messages(init)) by {
      assert forall a :: 0 <= a < n ==> Messages(init)[a] == Messages(reqs)[a];
    }
    if k < n {
      assert init[k] == reqs[k];
      MissingExactly(init, headers, k);
      assert Messages(reqs)[k] != Messages(reqs)[n];
    } else if reqs[k].message in MissingOf(init, headers) {
      MissingFromMessages(init, headers);
      assert false;
    }
  }

  /** Every reported message is the message of some requirement. */
  lemma {:induction false} MissingFromMessages(reqs: seq<Requirement>, headers: Headers)
    ensures forall m :: m in MissingOf(reqs, headers) ==> m in Messages(reqs)
  {
    MissingInOrder(reqs, headers);
    SubsequenceMembers(MissingOf(reqs, headers), Messages(reqs));
  }

  /** The reported messages keep the order of the requirements. */
  lemma {:induction false} MissingInOrder(reqs: seq<Requirement>, headers: Headers)
    ensures IsSubsequence(MissingOf(reqs, headers), Messages(reqs))
  {
    if reqs != [] {
      var n := |reqs| - 1;
      var init := reqs[..n];
      var before := MissingOf(init, headers);
      MissingInOrder(init, headers);
      assert Messages(reqs) == Messages(init) + [reqs[n].message];
      if Has(headers, reqs[n].header) {
        assert MissingOf(reqs, headers) == before + [] == before;
        SubsequenceExtend(before, Messages(init), reqs[n].message);
      } else {
        var after := before + [reqs[n].message];
        assert after[..|after| - 1] == before;
        assert Messages(reqs)[..|reqs| - 1] == Messages(init);
      }
    }
  }

  /** Nothing is reported exactly when every audited header is present. */
  lemma {:induction false} NothingMissingIffAllPresent(reqs: seq<Requirement>, headers: Headers)
    ensures MissingOf(reqs, headers) == [] <==> forall k :: 0 <= k < |reqs| ==> Has(headers, reqs[k].header)
  {
    if reqs != [] {
      var n := |reqs| - 1;
      var init := reqs[..n];
      NothingMissingIffAllPresent(init, headers);
      assert forall k :: 0 <= k < n ==> init[k] == reqs[k];
    }
  }

  /** The seven messages of the audit are pairwise distinct. */
  lemma RequiredMessagesDistinct()
    ensures Distinct(Messages(Required))
  {
    var ms := Messages(Required);
    assert ms == [Required[0].message, Required[1].message, Required[2].message, Required[3].message,
                  Required[4].message, Required[5].message, Required[6].message];
  }

  /** For the audit's own table: a message is recorded exactly when its header is absent. */
  lemma RequiredMissingExactly(headers: Headers, k: nat)
    requires k < |Required|
    ensures Required[k].message in MissingOf(Required, headers) <==> !Has(headers, Required[k].header)
  {
    RequiredMessagesDistinct();
    MissingExactly(Required, headers, k);
  }
}
