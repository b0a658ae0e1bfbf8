/** RDSService: turns the records of `describe_db_instances` into table rows of
    four cells, in the order of the RDS header: Name, State, Address, Port. */
module Rds {
  import opened Wrappers
  import opened Strings
  import opened Sorting
  import opened Parsers

  datatype Endpoint = Endpoint(address: string, port: int)

  /** One database record. A missing "DBClusterIdentifier" or "Endpoint" is None. */
  datatype DbInstance = DbInstance(clusterId: Option<string>, status: string, endpoint: Option<Endpoint>)

  /** Reading the endpoint of a record without one raises. */
  datatype DbParseError = MissingEndpoint

  /** _get_db_instance_state: the status, coloured when colour is on. */
  function GetDbInstanceState(status: string, color: bool, pal: Palette): (r: string)
    ensures !color ==> r == status
    ensures color ==> r == MakeItShine(if status == DbStateRunning then pal.green else pal.red, status, pal)
  {
    if color then
      (if status == DbStateRunning then MakeItShine(pal.green, status, pal) else MakeItShine(pal.red, status, pal))
    else status
  }

  /** With colour on, a status shows green exactly when it is "available",
      and red otherwise. */
  lemma DbStateColourIff(status: string, pal: Palette)
    requires Distinguishable(pal)
    ensures var shown := GetDbInstanceState(status, true, pal);
      (IsPrefix(pal.green, shown) <==> status == DbStateRunning) &&
      (IsPrefix(pal.red, shown) <==> status != DbStateRunning)
  {
    ShineShowsColour(status == DbStateRunning, status, pal);
  }

  /** _get_instance_endpoint: the address and the port. */
  function GetInstanceEndpoint(endpoint: Option<Endpoint>): (r: Result<(string, int), DbParseError>)
    ensures r.Err? <==> endpoint.None?
    ensures r.Ok? ==> r.value.0 == endpoint.value.address && r.value.1 == endpoint.value.port
  {
    match endpoint
    case None => Err(MissingEndpoint)
    case Some(e) => Ok((e.address, e.port))
  }

  /** _parse_db_instance_data: the four cells of one record's row. */
  function ParseDbInstanceData(inst: DbInstance, color: bool, pal: Palette): (r: Result<Row, DbParseError>)
    ensures r.Ok? ==> |r.value| == |DbInstancesHeaders|
  {
    var name := inst.clusterId.GetOr(NoneStr);
    var state := GetDbInstanceState(inst.status, color, pal);
    match GetInstanceEndpoint(inst.endpoint)
    case Err(e) => Err(e)
    case Ok((address, port)) => Ok([name, state, address, IntToString(port)])
  }

  /** A record fails exactly when it has no endpoint. Otherwise its row holds the
      cluster identifier (the placeholder when absent), the state label, the address,
      and `str(port)`, which reads back as the port. */
  lemma ParseDbInstanceDataSpec(inst: DbInstance, color: bool, pal: Palette)
    ensures var r := ParseDbInstanceData(inst, color, pal);
      (r.Err? <==> inst.endpoint.None?) &&
      (r.Ok? ==>
        (inst.clusterId.Some? ==> r.value[0] == inst.clusterId.value) &&
        (inst.clusterId.None? ==> r.value[0] == NoneStr) &&
        r.value[1] == GetDbInstanceState(inst.status, color, pal) &&
        r.value[2] == inst.endpoint.value.address &&
        r.value[3] == IntToString(inst.endpoint.value.port) &&
        (inst.endpoint.value.port >= 0 ==>
          AllDigits(r.value[3]) && DecimalValue(r.value[3]) == inst.endpoint.value.port) &&
        (inst.endpoint.value.port < 0 ==>
          r.value[3][0] == '-' && AllDigits(r.value[3][1..]) &&
          DecimalValue(r.value[3][1..]) == -inst.endpoint.value.port))
  {
    if inst.endpoint.Some? {
      var port := inst.endpoint.value.port;
      if port >= 0 {
        NatToStringRoundTrip(port);
      } else {
        NatToStringRoundTrip(-port);
      }
    }
  }

  /** The outcome of parsing each record on its own. */
  function ParsedDbRows(data: seq<DbInstance>, color: bool, pal: Palette): (rs: seq<Result<Row, DbParseError>>)
    ensures |rs| == |data|
    ensures forall i :: 0 <= i < |data| ==> rs[i] == ParseDbInstanceData(data[i], color, pal)
  {
    seq(|data|, i requires 0 <= i < |data| => ParseDbInstanceData(data[i], color, pal))
  }

  /** _parse_api_data: one row per record, in order, or the error of the first
      record that raises. */
  method ParseApiData(data: seq<DbInstance>, color: bool, pal: Palette) returns (r: Result<seq<Row>, DbParseError>)
    ensures r == Collect(ParsedDbRows(data, color, pal))
  {
    ghost var rs := ParsedDbRows(data, color, pal);
    var dbInstancesData: seq<Row> := [];
    for i := 0 to |data|
      invariant Collect(rs[..i]) == Ok(dbInstancesData)
    {
      var parsed := ParseDbInstanceData(data[i], color, pal);
      if parsed.Err? {
        CollectPrefixErr(rs, i, dbInstancesData);
        return Err(parsed.error);
      }
      CollectPrefixOk(rs, i, dbInstancesData);
      dbInstancesData := dbInstancesData + [parsed.value];
    }
    assert rs[..|data|] == rs;
    r := Ok(dbInstancesData);
  }

  /** The rows come out exactly when every record has an endpoint, one per record
      and in order, each with a cell for every RDS column. */
  lemma ParseApiDataSpec(data: seq<DbInstance>, color: bool, pal: Palette)
    ensures var r := Collect(ParsedDbRows(data, color, pal));
      (r.Ok? <==> forall i :: 0 <= i < |data| ==> data[i].endpoint.Some?) &&
      (r.Ok? ==> (|r.value| == |data| && RowsFit(r.value, true) &&
        forall i :: 0 <= i < |data| ==> r.value[i] == ParseDbInstanceData(data[i], color, pal).value)) &&
      (r.Err? ==> exists i :: 0 <= i < |data| && data[i].endpoint.None?)
  {
    var rs := ParsedDbRows(data, color, pal);
    CollectSpec(rs);
    forall i | 0 <= i < |data| ensures rs[i].Ok? <==> data[i].endpoint.Some? {
      ParseDbInstanceDataSpec(data[i], color, pal);
    }
  }

  /** A record with every field present gives the row the table shows. */
  lemma ParseDbExample(pal: Palette)
    ensures ParseDbInstanceData(DbInstance(Some("db1"), "available", Some(Endpoint("db1.example", 5432))), false, pal)
      == Ok(["db1", "available", "db1.example", "5432"])
  {
    assert NatToString(5) == "5" && NatToString(4) == "4" && NatToString(3) == "3" && NatToString(2) == "2";
    assert NatToString(54) == "54";
    assert NatToString(543) == "543";
    assert NatToString(5432) == "5432";
  }
}
