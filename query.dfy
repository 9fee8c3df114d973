/**
  query.ts: a query text and the parameters pushed onto it one by one, each
  kept in its encoded form.
*/
module Queries {
  import opened Wire
  import opened Protocol

  class Query {
    var query: string
    var params: seq<string>

    /** new Query(query): the base query and no parameters yet. */
    constructor(query: string)
      ensures this.query == query && params == []
    {
      this.query := query;
      params := [];
    }

    function GetQuery(): (r: string)
      reads this
      ensures r == query
    {
      query
    }

    /** The encoded parameters pushed so far, oldest first. */
    function GetParams(): (r: seq<string>)
      reads this
      ensures r == params
    {
      params
    }

    function GetParamCount(): (r: nat)
      reads this
      ensures r == |params|
    {
      |params|
    }

    function GetQueryLength(): (r: nat)
      reads this
      ensures r == |query|
    {
      |query|
    }

    /**
      pushParam: the parameter's encoding goes on the end and nothing else
      changes; a parameter that cannot be encoded throws before anything is
      pushed.
    */
    method PushParam(p: Param) returns (r: Result<(), Failure>)
      modifies this
      ensures query == old(query)
      ensures EncodeParam(p).Ok? ==> r.Ok? && params == old(params) + [EncodeParam(p).value]
      ensures EncodeParam(p).Err? ==> r == Err(EncodeParam(p).error) && params == old(params)
    {
      match EncodeParam(p)
      case Err(e) =>
        r := Err(e);
      case Ok(encoded) =>
        params := params + [encoded];
        r := Ok(());
    }
  }
}
