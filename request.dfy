/** The parts of a request the handlers read before they touch the store:
    the bearer token, integer and boolean parameters with their defaults. */
module Request {
  import opened Common
  import opened Text

  /** The token the handlers take from the `Authorization` header: the header
      with every "Bearer " removed, or null when there is no header. */
  function BearerToken(header: Option<string>): (r: Option<string>)
    ensures header.None? <==> r.None?
  {
    match header
    case None => None
    case Some(h) => Some(RemoveAll(h, "Bearer "))
  }

  /** `if (!$token)` does not reject the request. */
  predicate HasToken(header: Option<string>)
  {
    Present(BearerToken(header))
  }

  /** A header holding only the scheme carries no token. */
  lemma SchemeOnlyHasNoToken()
    ensures !HasToken(Some("Bearer "))
  {
    var h := "Bearer ";
    assert h[..|h|] == h;
    assert h[|h|..] == [];
  }

  /** A header without the scheme is taken whole as the token. */
  lemma BareTokenKept(h: string)
    requires !Contains(h, "Bearer ")
    ensures BearerToken(Some(h)) == Some(h)
  {
    RemoveAllAbsent(h, "Bearer ");
  }

  /** "Bearer " followed by a token yields the token. */
  lemma BearerTokenOf(tok: string)
    requires !Contains(tok, "Bearer ")
    ensures BearerToken(Some("Bearer " + tok)) == Some(tok)
  {
    var h := "Bearer " + tok;
    assert h[..7] == "Bearer ";
    assert h[7..] == tok;
    RemoveAllAbsent(tok, "Bearer ");
  }

  /** `isset($x) ? intval($x) : d` on an already-decoded integer. */
  function IntOr(o: Option<int>, d: int): (r: int)
    ensures o.Some? ==> r == o.value
    ensures o.None? ==> r == d
  {
    if o.Some? then o.value else d
  }

  /** `isset($x) ? (bool)$x : d` on an already-decoded boolean. */
  function BoolOr(o: Option<bool>, d: bool): (r: bool)
    ensures o.Some? ==> r == o.value
    ensures o.None? ==> r == d
  {
    if o.Some? then o.value else d
  }

  /** The text of an optional field, empty when it is absent. */
  function TextOf(o: Option<string>): (r: string)
    ensures o.Some? ==> r == o.value
    ensures o.None? ==> r == ""
  {
    if o.Some? then o.value else ""
  }

  /** The name of the first required field, in the order given, that is
      missing or empty; None when every one is present. */
  function FirstMissing(names: seq<string>, values: seq<Option<string>>): (r: Option<string>)
    requires |names| == |values|
    ensures r.None? <==> forall i :: 0 <= i < |values| ==> Present(values[i])
    ensures r.Some? ==> exists i :: 0 <= i < |names| && names[i] == r.value && !Present(values[i])
                                   && forall j :: 0 <= j < i ==> Present(values[j])
  {
    if names == [] then None
    else if !Present(values[0]) then Some(names[0])
    else
      var rest := FirstMissing(names[1..], values[1..]);
      assert forall i :: 1 <= i < |values| ==> values[i] == values[1..][i - 1];
      if rest.Some? then
        ghost var i :| 0 <= i < |names[1..]| && names[1..][i] == rest.value && !Present(values[1..][i])
                       && forall j :: 0 <= j < i ==> Present(values[1..][j]);
        assert names[i + 1] == rest.value && !Present(values[i + 1]);
        assert forall j :: 0 <= j < i + 1 ==> Present(values[j]) by {
          forall j | 0 <= j < i + 1 ensures Present(values[j]) {
            if j > 0 {
              assert values[j] == values[1..][j - 1];
            }
          }
        }
        rest
      else rest
  }

  /** The `foreach` over the required fields, stopping at the first one
      that is missing or empty. */
  method FindMissing(names: seq<string>, values: seq<Option<string>>) returns (r: Option<string>)
    requires |names| == |values|
    ensures r == FirstMissing(names, values)
  {
    var i := 0;
    while i < |names|
      invariant 0 <= i <= |names|
      invariant FirstMissing(names, values) == FirstMissing(names[i..], values[i..])
    {
      if !Present(values[i]) {
        return Some(names[i]);
      }
      assert names[i..][1..] == names[i + 1..] && values[i..][1..] == values[i + 1..];
      i := i + 1;
    }
    return None;
  }
}
