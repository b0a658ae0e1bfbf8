/** EC2Service: turns the records of `describe_instances` into table rows of
    six cells, in the order of the EC2 header:
    Name, State, State Time, Public IP, Env, Id.

    The clock and the date parser are parameters: `now` is the current time
    in whole seconds, and `parseTime` reads a timestamp out of text (None
    where the parser fails). */
module Ec2 {
  import opened Wrappers
  import opened Strings
  import opened Sorting
  import opened TimeFormat
  import opened Parsers

  datatype Tag = Tag(key: string, value: string)

  datatype InstanceState = InstanceState(name: string, code: int)

  /** One record of a reservation. A missing "Tags" key is None; a missing
      "StateTransitionReason" is the empty string; `launchTime` is in seconds. */
  datatype Instance = Instance(
    instanceId: string,
    tags: Option<seq<Tag>>,
    state: InstanceState,
    launchTime: int,
    reason: string,
    publicIp: Option<string>)

  datatype Reservation = Reservation(instances: seq<Instance>)

  /** What `_get_correct_state_key` hands on: the launch time, or the reason text. */
  datatype StateKey = LaunchKey(time: int) | ReasonKey(text: string)

  /** The ways parsing one instance raises. */
  datatype ParseError =
    | MissingTags      // no "Tags" list: iterating over None
    | WrongKeyType     // a running instance with a reason, or a stopped one without
    | NoReasonMatch    // the reason has no "(...)" part: match.group on None
    | UnparseableTime  // the date parser rejects the captured text

  // ---------------------------------------------------------------------
  // Tags

  /** The tag map before any tag is read. */
  const DefaultTags: map<string, string> := map["Name" := NoneStr, "environment" := NoneStr]

  /** The map `_get_instance_tags` builds: the defaults, then each tag in turn. */
  function TagMap(tags: seq<Tag>): (m: map<string, string>)
    ensures "Name" in m && "environment" in m
  {
    if |tags| == 0 then DefaultTags
    else
      var last := tags[|tags| - 1];
      TagMap(tags[..|tags| - 1])[last.key := last.value]
  }

  /** The position of the last tag with key `key`, if any. */
  function LastTagIndex(tags: seq<Tag>, key: string): (r: Option<nat>)
    ensures r.Some? ==> r.value < |tags| && tags[r.value].key == key
    ensures r.Some? ==> forall j :: r.value < j < |tags| ==> tags[j].key != key
    ensures r.None? ==> forall j :: 0 <= j < |tags| ==> tags[j].key != key
  {
    if |tags| == 0 then None
    else if tags[|tags| - 1].key == key then Some(|tags| - 1)
    else LastTagIndex(tags[..|tags| - 1], key)
  }

  /** The value a key ends up with: the last tag's with that key, else the placeholder. */
  function TagValue(tags: seq<Tag>, key: string): string {
    match LastTagIndex(tags, key)
    case Some(i) => tags[i].value
    case None => NoneStr
  }

  /** The tag map holds the two default keys and the key of every tag, and the
      last tag with a key wins. */
  lemma {:induction false} TagMapLastWins(tags: seq<Tag>, key: string)
    ensures key in TagMap(tags) <==>
      key == "Name" || key == "environment" || exists i :: 0 <= i < |tags| && tags[i].key == key
    ensures key in TagMap(tags) ==> TagMap(tags)[key] == TagValue(tags, key)
  {
    if |tags| > 0 {
      var init := tags[..|tags| - 1];
      TagMapLastWins(init, key);
      if tags[|tags| - 1].key != key {
        if exists i :: 0 <= i < |tags| && tags[i].key == key {
          var i :| 0 <= i < |tags| && tags[i].key == key;
          assert init[i].key == key;
        }
        assert forall i :: 0 <= i < |init| ==> init[i] == tags[i];
      }
    }
  }

  /** _get_instance_tags */
  method GetInstanceTags(tags: seq<Tag>) returns (parsedTags: map<string, string>)
    ensures parsedTags == TagMap(tags)
  {
    parsedTags := DefaultTags;
    for i := 0 to |tags|
      invariant parsedTags == TagMap(tags[..i])
    {
      assert tags[..i + 1][..i] == tags[..i];
      parsedTags := parsedTags[tags[i].key := tags[i].value];
    }
    assert tags[..|tags|] == tags;
  }

  // ---------------------------------------------------------------------
  // State

  /** _get_instance_state: the label, coloured when colour is on, and the code. */
  function GetInstanceState(state: InstanceState, color: bool, pal: Palette): (r: (string, int))
    ensures r.1 == state.code
    ensures !color ==> r.0 == state.name
    ensures color ==> r.0 == MakeItShine(if state.code == StateCodeRunning then pal.green else pal.red, state.name, pal)
  {
    var name :=
      if color then
        (if state.code == StateCodeRunning then MakeItShine(pal.green, state.name, pal)
         else MakeItShine(pal.red, state.name, pal))
      else state.name;
    (name, state.code)
  }

  /** With colour on, a state label starts with green exactly when the code is 16
      (running), and with red otherwise. */
  lemma StateColourIff(state: InstanceState, pal: Palette)
    requires Distinguishable(pal)
    ensures var shown := GetInstanceState(state, true, pal).0;
      (IsPrefix(pal.green, shown) <==> state.code == StateCodeRunning) &&
      (IsPrefix(pal.red, shown) <==> state.code != StateCodeRunning)
  {
    ShineShowsColour(state.code == StateCodeRunning, state.name, pal);
  }

  // ---------------------------------------------------------------------
  // State time

  /** _get_correct_state_key: the launch time when the reason is empty, else the reason. */
  function GetCorrectStateKey(inst: Instance): (k: StateKey)
    ensures k.LaunchKey? <==> inst.reason == ""
    ensures k.LaunchKey? ==> k.time == inst.launchTime
    ensures k.ReasonKey? ==> k.text == inst.reason
  {
    if inst.reason == "" then LaunchKey(inst.launchTime) else ReasonKey(inst.reason)
  }

  /** The last position of `c` in `s`, if any. */
  function LastIndexOf(s: string, c: char): (r: Option<nat>)
    ensures r.Some? ==> r.value < |s| && s[r.value] == c
    ensures r.Some? ==> forall m :: r.value < m < |s| ==> s[m] != c
    ensures r.None? ==> c !in s
  {
    if |s| == 0 then None
    else if s[|s| - 1] == c then Some(|s| - 1)
    else LastIndexOf(s[..|s| - 1], c)
  }

  /** The text between the last "(" that has a later ")" and the last ")" of a line. */
  function LastParenthesised(line: string): Option<string> {
    match LastIndexOf(line, ')')
    case None => None
    case Some(j) =>
      match LastIndexOf(line[..j], '(')
      case None => None
      case Some(i) => Some(line[i + 1..j])
  }

  /** `re.search(r"^.*\((.*)\).*$", reason).group(1)`, None where there is no match.
      `.` does not match a newline and `$` also matches before a final newline,
      so the reason must be one line, optionally ending in a newline. */
  function ReasonTimestamp(reason: string): Option<string> {
    var line := if |reason| > 0 && reason[|reason| - 1] == '\n' then reason[..|reason| - 1] else reason;
    if '\n' in line then None else LastParenthesised(line)
  }

  /** With no "(" before the last ")" at `j`, no "(" comes before any ")". */
  lemma NoOpenBefore(line: string, j: nat)
    requires j < |line| && line[j] == ')' && '(' !in line[..j]
    requires forall m :: j < m < |line| ==> line[m] != ')'
    ensures forall i, k :: 0 <= i < k < |line| && line[k] == ')' ==> line[i] != '('
  {
    forall i, k | 0 <= i < k < |line| && line[k] == ')' ensures line[i] != '(' {
      assert k <= j;
      assert line[..j][i] == line[i];
    }
  }

  /** The capture exists exactly when some "(" comes before some ")"; it is then
      the text after the last such "(", up to the last ")", and holds no "(". */
  lemma LastParenthesisedSpec(line: string)
    ensures LastParenthesised(line).Some? <==>
      exists i, j :: 0 <= i < j < |line| && line[i] == '(' && line[j] == ')'
    ensures LastParenthesised(line).Some? ==>
      exists i, j :: 0 <= i < j < |line| && line[i] == '(' && line[j] == ')' &&
        LastParenthesised(line).value == line[i + 1..j] &&
        '(' !in line[i + 1..j] && ')' !in line[j + 1..]
  {
    match LastIndexOf(line, ')') {
      case None =>
        assert forall k :: 0 <= k < |line| ==> line[k] != ')';
      case Some(j) =>
        var pre := line[..j];
        match LastIndexOf(pre, '(') {
          case None =>
            NoOpenBefore(line, j);
          case Some(i) =>
            assert line[i] == '(';
            assert forall m :: i < m < j ==> line[m] == pre[m];
            assert forall m :: j < m < |line| ==> line[m] != ')';
        }
    }
  }

  /** The regular expression matches exactly when the reason, less one final newline,
      is a single line in which some "(" comes before some ")". */
  lemma ReasonTimestampSpec(reason: string)
    ensures var line := if |reason| > 0 && reason[|reason| - 1] == '\n' then reason[..|reason| - 1] else reason;
      ReasonTimestamp(reason).Some? <==>
        '\n' !in line && exists i, j :: 0 <= i < j < |line| && line[i] == '(' && line[j] == ')'
  {
    var line := if |reason| > 0 && reason[|reason| - 1] == '\n' then reason[..|reason| - 1] else reason;
    LastParenthesisedSpec(line);
  }

  /** _get_instance_state_time: running instances count from the launch time, stopped
      ones from the time in their reason, everything else has "No Info". */
  function GetInstanceStateTime(key: StateKey, code: int, now: int, parseTime: string -> Option<int>)
    : (r: Result<string, ParseError>)
    ensures code != StateCodeRunning && code != StateCodeStopped ==> r == Ok("No Info")
  {
    if code == StateCodeRunning then
      match key
      case LaunchKey(t) => Ok(TdText(now - t))
      case ReasonKey(_) => Err(WrongKeyType)
    else if code == StateCodeStopped then
      match key
      case LaunchKey(_) => Err(WrongKeyType)
      case ReasonKey(text) =>
        match ReasonTimestamp(text)
        case None => Err(NoReasonMatch)
        case Some(captured) =>
          match parseTime(captured)
          case None => Err(UnparseableTime)
          case Some(t) => Ok(TdText(now - t))
    else Ok("No Info")
  }

  /** A running instance needs the launch time, and shows the time since then. */
  lemma GetInstanceStateTimeRunning(key: StateKey, now: int, parseTime: string -> Option<int>)
    ensures var r := GetInstanceStateTime(key, StateCodeRunning, now, parseTime);
      (r.Ok? <==> key.LaunchKey?) &&
      (key.LaunchKey? ==> r.value == TdText(now - key.time)) &&
      (key.ReasonKey? ==> r == Err(WrongKeyType))
  {
    match key {
      case LaunchKey(t) =>
      case ReasonKey(_) =>
    }
  }

  /** A stopped instance needs a reason with a parenthesised timestamp that the parser
      accepts, and shows the time since that timestamp. */
  lemma GetInstanceStateTimeStopped(key: StateKey, now: int, parseTime: string -> Option<int>)
    ensures var r := GetInstanceStateTime(key, StateCodeStopped, now, parseTime);
      (r.Ok? <==>
        key.ReasonKey? && ReasonTimestamp(key.text).Some? && parseTime(ReasonTimestamp(key.text).value).Some?) &&
      (r.Ok? ==> r.value == TdText(now - parseTime(ReasonTimestamp(key.text).value).value)) &&
      (key.LaunchKey? ==> r == Err(WrongKeyType)) &&
      (key.ReasonKey? && ReasonTimestamp(key.text).None? ==> r == Err(NoReasonMatch))
  {
    match key {
      case LaunchKey(_) =>
      case ReasonKey(text) =>
        match ReasonTimestamp(text) {
          case None =>
          case Some(captured) =>
            match parseTime(captured) {
              case None =>
              case Some(t) =>
            }
        }
    }
  }

  // ---------------------------------------------------------------------
  // Rows

  /** The public IP, or the placeholder when it is absent or empty. */
  function PublicIp(inst: Instance): (ip: string)
    ensures ip == NoneStr <==> inst.publicIp.None? || inst.publicIp.value in {"", NoneStr}
    ensures ip != NoneStr ==> ip == inst.publicIp.value
  {
    match inst.publicIp
    case Some(a) => if a != "" then a else NoneStr
    case None => NoneStr
  }

  /** _parse_instance_data: the six cells of one instance's row. */
  function ParseInstanceData(inst: Instance, color: bool, pal: Palette, now: int, parseTime: string -> Option<int>)
    : (r: Result<Row, ParseError>)
    ensures r.Ok? ==> |r.value| == |InstancesHeaders|
  {
    match inst.tags
    case None => Err(MissingTags)
    case Some(tagList) =>
      var tags := TagMap(tagList);
      var (stateName, stateCode) := GetInstanceState(inst.state, color, pal);
      match GetInstanceStateTime(GetCorrectStateKey(inst), stateCode, now, parseTime)
      case Err(e) => Err(e)
      case Ok(stateTime) =>
        Ok([tags["Name"], stateName, stateTime, PublicIp(inst), tags["environment"], inst.instanceId])
  }

  /** The tags are read first, so a missing tag list fails before the state time is
      looked at; otherwise the row fails exactly when the state time does, and holds
      the name tag, the state label, the state time, the public IP, the environment
      tag and the instance id, in the order of the EC2 header. */
  lemma ParseInstanceDataSpec(inst: Instance, color: bool, pal: Palette, now: int, parseTime: string -> Option<int>)
    ensures var r, stateTime := ParseInstanceData(inst, color, pal, now, parseTime),
        GetInstanceStateTime(GetCorrectStateKey(inst), inst.state.code, now, parseTime);
      (inst.tags.None? ==> r == Err(MissingTags)) &&
      (inst.tags.Some? ==> (r.Ok? <==> stateTime.Ok?)) &&
      (inst.tags.Some? && r.Err? ==> r.error == stateTime.error) &&
      (r.Ok? ==> inst.tags.Some? && r.value == [
        TagValue(inst.tags.value, "Name"),
        GetInstanceState(inst.state, color, pal).0,
        stateTime.value,
        PublicIp(inst),
        TagValue(inst.tags.value, "environment"),
        inst.instanceId])
  {
    if inst.tags.Some? {
      TagMapLastWins(inst.tags.value, "Name");
      TagMapLastWins(inst.tags.value, "environment");
    }
  }

  /** The instances of all reservations, in order. */
  function Flatten(reservations: seq<Reservation>): (r: seq<Instance>)
    ensures |reservations| == 0 ==> r == []
  {
    if |reservations| == 0 then []
    else Flatten(reservations[..|reservations| - 1]) + reservations[|reservations| - 1].instances
  }

  /** The outcome of parsing each instance on its own. */
  function ParsedRows(insts: seq<Instance>, color: bool, pal: Palette, now: int, parseTime: string -> Option<int>)
    : (rs: seq<Result<Row, ParseError>>)
    ensures |rs| == |insts|
    ensures forall i :: 0 <= i < |insts| ==> rs[i] == ParseInstanceData(insts[i], color, pal, now, parseTime)
  {
    seq(|insts|, i requires 0 <= i < |insts| => ParseInstanceData(insts[i], color, pal, now, parseTime))
  }

  /** What _parse_api_data returns: every instance's row in order, or the error of
      the first instance that raises. */
  function ParseAll(reservations: seq<Reservation>, color: bool, pal: Palette, now: int, parseTime: string -> Option<int>)
    : Result<seq<Row>, ParseError>
  {
    Collect(ParsedRows(Flatten(reservations), color, pal, now, parseTime))
  }

  /** ParseAll succeeds exactly when every instance of every reservation parses, and
      then has one row per instance, in order; otherwise it carries the error of the
      first instance that fails. */
  lemma ParseAllSpec(reservations: seq<Reservation>, color: bool, pal: Palette, now: int, parseTime: string -> Option<int>)
    ensures var insts, r := Flatten(reservations), ParseAll(reservations, color, pal, now, parseTime);
      (r.Ok? <==> forall i :: 0 <= i < |insts| ==> ParseInstanceData(insts[i], color, pal, now, parseTime).Ok?) &&
      (r.Ok? ==> (|r.value| == |insts| &&
        forall i :: 0 <= i < |insts| ==> r.value[i] == ParseInstanceData(insts[i], color, pal, now, parseTime).value)) &&
      (r.Err? ==> exists i :: (0 <= i < |insts| &&
        ParseInstanceData(insts[i], color, pal, now, parseTime) == Err(r.error) &&
        forall j :: 0 <= j < i ==> ParseInstanceData(insts[j], color, pal, now, parseTime).Ok?))
  {
    CollectSpec(ParsedRows(Flatten(reservations), color, pal, now, parseTime));
  }

  /** Every parsed row has a cell for each EC2 column, so the rows can go straight
      to the filter and sort. */
  lemma ParseAllFits(reservations: seq<Reservation>, color: bool, pal: Palette, now: int, parseTime: string -> Option<int>)
    requires ParseAll(reservations, color, pal, now, parseTime).Ok?
    ensures RowsFit(ParseAll(reservations, color, pal, now, parseTime).value, false)
  {
    CollectSpec(ParsedRows(Flatten(reservations), color, pal, now, parseTime));
  }

  /** A reservation's instances come after those of the reservations before it. */
  lemma FlattenNext(reservations: seq<Reservation>, i: nat)
    requires i < |reservations|
    ensures Flatten(reservations[..i + 1]) == Flatten(reservations[..i]) + reservations[i].instances
  {
    assert reservations[..i + 1][..i] == reservations[..i];
  }

  /** The instances of the first `k` reservations, then those of the rest. */
  lemma {:induction false} FlattenSplit(reservations: seq<Reservation>, k: nat)
    requires k <= |reservations|
    ensures Flatten(reservations) == Flatten(reservations[..k]) + Flatten(reservations[k..])
    decreases |reservations|
  {
    if k == |reservations| {
      assert reservations[..k] == reservations;
    } else {
      var n := |reservations| - 1;
      var init := reservations[..n];
      FlattenSplit(init, k);
      assert init[..k] == reservations[..k];
      assert init[k..] == reservations[k..][..|reservations[k..]| - 1];
    }
  }

  /** Instance `j` of reservation `i` sits in the flattened list just after the
      instances of the reservations before it. */
  lemma FlattenIndex(reservations: seq<Reservation>, i: nat, j: nat)
    requires i < |reservations| && j < |reservations[i].instances|
    ensures |Flatten(reservations[..i])| + j < |Flatten(reservations)|
    ensures Flatten(reservations)[|Flatten(reservations[..i])| + j] == reservations[i].instances[j]
  {
    FlattenNext(reservations, i);
    FlattenSplit(reservations, i + 1);
  }

  /** ParsedRows distributes over concatenation. */
  lemma ParsedRowsAppend(a: seq<Instance>, b: seq<Instance>, color: bool, pal: Palette, now: int, parseTime: string -> Option<int>)
    ensures ParsedRows(a + b, color, pal, now, parseTime) ==
      ParsedRows(a, color, pal, now, parseTime) + ParsedRows(b, color, pal, now, parseTime)
  {
    var x, y := ParsedRows(a, color, pal, now, parseTime), ParsedRows(b, color, pal, now, parseTime);
    var l := ParsedRows(a + b, color, pal, now, parseTime);
    forall k | 0 <= k < |l| ensures l[k] == (x + y)[k] {
      if k < |a| {
        assert (a + b)[k] == a[k];
      } else {
        assert (a + b)[k] == b[k - |a|];
      }
    }
  }

  /** One more reservation: its instances' rows follow the rows so far. */
  lemma ParseAllNext(reservations: seq<Reservation>, i: nat, before: seq<Row>,
                     color: bool, pal: Palette, now: int, parseTime: string -> Option<int>)
    requires i < |reservations|
    requires ParseAll(reservations[..i], color, pal, now, parseTime) == Ok(before)
    ensures ParseAll(reservations[..i + 1], color, pal, now, parseTime) ==
      match Collect(ParsedRows(reservations[i].instances, color, pal, now, parseTime))
      case Err(e) => Err(e)
      case Ok(rows) => Ok(before + rows)
  {
    FlattenNext(reservations, i);
    ParsedRowsAppend(Flatten(reservations[..i]), reservations[i].instances, color, pal, now, parseTime);
    CollectAppend(ParsedRows(Flatten(reservations[..i]), color, pal, now, parseTime),
      ParsedRows(reservations[i].instances, color, pal, now, parseTime), before);
  }

  /** A reservation whose instances fail decides the outcome of the whole parse. */
  lemma ParseAllStops(reservations: seq<Reservation>, i: nat, before: seq<Row>,
                      color: bool, pal: Palette, now: int, parseTime: string -> Option<int>)
    requires i < |reservations|
    requires ParseAll(reservations[..i], color, pal, now, parseTime) == Ok(before)
    requires Collect(ParsedRows(reservations[i].instances, color, pal, now, parseTime)).Err?
    ensures ParseAll(reservations, color, pal, now, parseTime) ==
      Collect(ParsedRows(reservations[i].instances, color, pal, now, parseTime))
  {
    ParseAllNext(reservations, i, before, color, pal, now, parseTime);
    FlattenSplit(reservations, i + 1);
    ParsedRowsAppend(Flatten(reservations[..i + 1]), Flatten(reservations[i + 1..]), color, pal, now, parseTime);
    CollectErrSticks(ParsedRows(Flatten(reservations[..i + 1]), color, pal, now, parseTime),
      ParsedRows(Flatten(reservations[i + 1..]), color, pal, now, parseTime));
  }

  /** The inner loop of _parse_api_data: the rows of one reservation's instances,
      in order, up to the first instance that raises. */
  method ParseInstances(instances: seq<Instance>, color: bool, pal: Palette, now: int, parseTime: string -> Option<int>)
    returns (r: Result<seq<Row>, ParseError>)
    ensures r == Collect(ParsedRows(instances, color, pal, now, parseTime))
  {
    ghost var rs := ParsedRows(instances, color, pal, now, parseTime);
    var rows: seq<Row> := [];
    for j := 0 to |instances|
      invariant Collect(rs[..j]) == Ok(rows)
    {
      var parsed := ParseInstanceData(instances[j], color, pal, now, parseTime);
      if parsed.Err? {
        CollectPrefixErr(rs, j, rows);
        return Err(parsed.error);
      }
      CollectPrefixOk(rs, j, rows);
      rows := rows + [parsed.value];
    }
    assert rs[..|rs|] == rs;
    r := Ok(rows);
  }

  /** _parse_api_data: the rows of every instance of every reservation, in order;
      the first instance that raises aborts the whole parse. */
  method ParseApiData(reservations: seq<Reservation>, color: bool, pal: Palette, now: int, parseTime: string -> Option<int>)
    returns (r: Result<seq<Row>, ParseError>)
    ensures r == ParseAll(reservations, color, pal, now, parseTime)
  {
    var instancesData: seq<Row> := [];
    for i := 0 to |reservations|
      invariant ParseAll(reservations[..i], color, pal, now, parseTime) == Ok(instancesData)
    {
      var rows := ParseInstances(reservations[i].instances, color, pal, now, parseTime);
      ParseAllNext(reservations, i, instancesData, color, pal, now, parseTime);
      if rows.Err? {
        ParseAllStops(reservations, i, instancesData, color, pal, now, parseTime);
        return Err(rows.error);
      }
      instancesData := instancesData + rows.value;
    }
    assert reservations[..|reservations|] == reservations;
    r := Ok(instancesData);
  }
}
