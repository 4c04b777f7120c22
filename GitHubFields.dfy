/**
 * Small normalisations in GitHubPullRequest: the body of a pull request
 * (getBody), its labels (getLabels) and removing a label (removeLabel).
 */
module GitHubFields {
  import opened Wrappers
  import opened StringOrder

  /** getBody: the forge's body field, with a JSON null read as the empty string. */
  function GetBody(body: Option<string>): (r: string)
    ensures body.Some? ==> r == body.value
    ensures body.None? ==> r == ""
  {
    body.GetOr("")
  }

  /** getLabels: the names of the forge's labels, in ascending order. */
  function GetLabels(names: seq<string>): (r: seq<string>)
    ensures Ascending(r)
    ensures multiset(r) == multiset(names)
  {
    SortStrings(names)
  }

  /** The label list getLabels returns is the only ascending arrangement of the names. */
  lemma {:induction false} AscendingPermutationUnique(s: seq<string>, t: seq<string>)
    requires Ascending(s) && Ascending(t) && multiset(s) == multiset(t)
    ensures s == t
    decreases |s|
  {
    if s != [] {
      SameHead(s, t);
      MultisetTail(s);
      MultisetTail(t);
      AscendingPermutationUnique(s[1..], t[1..]);
      assert s == [s[0]] + s[1..] && t == [t[0]] + t[1..];
    } else {
      assert |multiset(t)| == 0;
    }
  }

  /** Two ascending arrangements of the same non-empty multiset start alike. */
  lemma SameHead(s: seq<string>, t: seq<string>)
    requires Ascending(s) && Ascending(t) && multiset(s) == multiset(t) && s != []
    ensures t != [] && s[0] == t[0]
  {
    assert s[0] in multiset(t);
    assert t[0] in multiset(s);
    if s[0] != t[0] {
      var i :| 0 <= i < |t| && t[i] == s[0];
      var j :| 0 <= j < |s| && s[j] == t[0];
      assert LessEq(t[0], s[0]) by { assert 0 < i; }
      assert LessEq(s[0], t[0]) by { assert 0 < j; }
      LessAsymmetric(s[0], t[0]);
    }
  }

  lemma MultisetTail(s: seq<string>)
    requires s != []
    ensures multiset(s[1..]) == multiset(s) - multiset{s[0]}
  {
    assert s == [s[0]] + s[1..];
    assert multiset(s) == multiset{s[0]} + multiset(s[1..]);
  }

  /** The answer to the DELETE request for one label. */
  datatype DeleteResponse = Deleted | ErrorStatus(statusCode: int)

  /**
   * removeLabel: a 404 answer, which the forge gives for a label that is not
   * set, counts as done; any other error is an invalid response.
   */
  function RemoveLabel(response: DeleteResponse): (r: Outcome<string>)
    ensures r.Pass? <==> response.Deleted? || response.statusCode == 404
    ensures r.Fail? ==> r.error == "Invalid response"
  {
    match response
    case Deleted => Pass
    case ErrorStatus(code) => if code == 404 then Pass else Fail("Invalid response")
  }

  /** The forge's side of deleting a label: 404 for a label that is not set. */
  function ForgeDeleteLabel(labels: set<string>, name: string): (set<string>, DeleteResponse) {
    (labels - {name}, if name in labels then Deleted else ErrorStatus(404))
  }

  /**
   * Against that forge, removing a label always succeeds and leaves it unset;
   * removing it a second time succeeds too and changes nothing.
   */
  lemma RemoveLabelIdempotent(labels: set<string>, name: string)
    ensures var (after, response) := ForgeDeleteLabel(labels, name);
            && RemoveLabel(response).Pass? && name !in after
            && var (again, response2) := ForgeDeleteLabel(after, name);
               RemoveLabel(response2).Pass? && again == after
  {
  }
}
