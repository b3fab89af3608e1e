/** The existing-file query of main.go:79-116: which artifact names the
    target package version already holds. */
module Registry {
  import opened Outcomes

  /** What the list request came back with. The HTTP exchange and the JSON
      decoding are outside the model; `names` is the decoded list of `name`
      fields, or None when the body did not decode. */
  datatype ListResponse =
    | ListRequestError                                    // request creation or transport failed
    | ListReply(status: int, names: Option<seq<string>>)

  /** Why the query is fatal. */
  datatype ListError =
    | ListRequestFailed
    | ListStatus(status: int)
    | ListDecodeFailed

  const STATUS_OK := 200
  const STATUS_NOT_FOUND := 404

  /** `packageFiles` after main.go:81-116: None is the nil map (no query, or
      the package version does not exist yet), Some the names listed. */
  function Existing(skipExisting: bool, response: ListResponse): (r: Result<Option<set<string>>, ListError>)
    ensures r.Ok? && r.value.Some? <==>
      skipExisting && response.ListReply? && response.status == STATUS_OK && response.names.Some?
    ensures r.Ok? && r.value.Some? ==>
      forall n :: n in r.value.value <==> n in response.names.value
    ensures r == Ok(None) <==>
      !skipExisting || (response.ListReply? && response.status == STATUS_NOT_FOUND)
    ensures skipExisting && response.ListReply?
            && response.status != STATUS_OK && response.status != STATUS_NOT_FOUND
            ==> r == Err(ListStatus(response.status))
    ensures skipExisting && response.ListRequestError? ==> r == Err(ListRequestFailed)
    ensures skipExisting && response.ListReply? && response.status == STATUS_OK && response.names.None?
            ==> r == Err(ListDecodeFailed)
  {
    if !skipExisting then Ok(None)
    else match response
      case ListRequestError => Err(ListRequestFailed)
      case ListReply(status, names) =>
        if status != STATUS_OK then
          if status != STATUS_NOT_FOUND then Err(ListStatus(status)) else Ok(None)
        else if names.None? then Err(ListDecodeFailed)
        else Ok(Some(set n | n in names.value))
  }

  /** Lookup in the possibly nil map: a nil map holds nothing. */
  predicate Contains(existing: Option<set<string>>, name: string)
  {
    existing.Some? && name in existing.value
  }

  /** The loop of main.go:111-114 that fills the map from the decoded list. */
  method CollectNames(names: seq<string>) returns (packageFiles: set<string>)
    ensures forall n :: n in packageFiles <==> n in names
  {
    packageFiles := {};
    for i := 0 to |names|
      invariant forall n :: n in packageFiles <==> n in names[..i]
    {
      packageFiles := packageFiles + {names[i]};
    }
    assert names[..|names|] == names;
  }

  /** The query step of main.go:81-116, given the response it receives. */
  method FetchExisting(skipExisting: bool, response: ListResponse)
    returns (r: Result<Option<set<string>>, ListError>)
    ensures r == Existing(skipExisting, response)
  {
    if !skipExisting {
      return Ok(None);
    }
    if response.ListRequestError? {
      return Err(ListRequestFailed);
    }
    if response.status != STATUS_OK {
      if response.status != STATUS_NOT_FOUND {
        return Err(ListStatus(response.status));
      }
      return Ok(None);
    }
    if response.names.None? {
      return Err(ListDecodeFailed);
    }
    var packageFiles := CollectNames(response.names.value);
    assert packageFiles == set n | n in response.names.value;
    r := Ok(Some(packageFiles));
  }
}
