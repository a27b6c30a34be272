/** `find_latest_timestamp`: parse every folder name, take the chronological
    maximum, and write it back in the folder-name layout. */
module Latest {
  import opened Results
  import opened Strings
  import opened Timestamp

  /** `[parse_timestamp(ts) for ts in timestamps]`: the comprehension stops
      at the first name `strptime` rejects. */
  function ParseAll(names: seq<string>): (r: Result<seq<DateTime>>)
    ensures r.Ok? <==> forall i :: 0 <= i < |names| ==> IsValid(names[i])
    ensures r.Ok? ==> |r.value| == |names|
                      && forall i :: 0 <= i < |names| ==> Parse(names[i]) == Some(r.value[i])
    ensures r.Err? ==> exists i :: 0 <= i < |names| && r.error == BadTimestamp(names[i])
                                   && !IsValid(names[i])
                                   && forall j :: 0 <= j < i ==> IsValid(names[j])
  {
    if |names| == 0 then Ok([])
    else match Parse(names[0])
      case None => Err(BadTimestamp(names[0]))
      case Some(t) =>
        var rest :- ParseAll(names[1..]);
        Ok([t] + rest)
  }

  /** `max(parsed)`: scanning left to right, an item replaces the current
      maximum only when it is strictly later. */
  function Max(ts: seq<DateTime>): (m: DateTime)
    requires |ts| > 0
    ensures m in ts
    ensures forall i :: 0 <= i < |ts| ==> !Before(m, ts[i])
  {
    if |ts| == 1 then ts[0]
    else
      var current := Max(ts[..|ts| - 1]);
      var last := ts[|ts| - 1];
      if Before(current, last) then
        assert forall i :: 0 <= i < |ts| - 1 ==> !Before(last, ts[i]) by {
          forall i | 0 <= i < |ts| - 1
            ensures !Before(last, ts[i])
          {
            assert ts[i] == ts[..|ts| - 1][i];
            BeforeIsStrictTotalOrder(ts[i], current, last);
            BeforeIsStrictTotalOrder(last, ts[i], current);
          }
        }
        BeforeIsStrictTotalOrder(last, last, last);
        last
      else
        assert forall i :: 0 <= i < |ts| - 1 ==> !Before(current, ts[i]) by {
          forall i | 0 <= i < |ts| - 1
            ensures !Before(current, ts[i])
          {
            assert ts[i] == ts[..|ts| - 1][i];
          }
        }
        current
  }

  /** `find_latest_timestamp(timestamps)`. */
  function FindLatest(names: seq<string>): (r: Result<string>)
    ensures r.Ok? <==> |names| > 0 && forall i :: 0 <= i < |names| ==> IsValid(names[i])
    ensures |names| == 0 ==> r == Err(NoTimestamps)
    ensures r.Err? && |names| > 0 ==> exists i :: 0 <= i < |names| && r.error == BadTimestamp(names[i])
                                                  && !IsValid(names[i])
    ensures r.Ok? ==> IsValid(r.value) && r.value in names
    ensures r.Ok? ==> forall i :: 0 <= i < |names| ==> !Before(Parse(r.value).value, Parse(names[i]).value)
  {
    var ts :- ParseAll(names);
    if |ts| == 0 then Err(NoTimestamps)
    else
      var m := Max(ts);
      var k :| 0 <= k < |ts| && ts[k] == m;
      FormatParse(names[k]);
      Ok(Format(m))
  }

  /** The latest name is also the greatest under string order: no input
      name sorts after it. */
  lemma LatestIsStringMaximum(names: seq<string>)
    requires FindLatest(names).Ok?
    ensures forall i :: 0 <= i < |names| ==> !LexLess(FindLatest(names).value, names[i])
  {
    var r := FindLatest(names).value;
    forall i | 0 <= i < |names|
      ensures !LexLess(r, names[i])
    {
      StringOrderIsChronological(r, names[i]);
    }
  }
}
