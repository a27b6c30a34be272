/** The two directory-index listeners, `FoldersHTMLParser` and
    `FilesHTMLParser`, as one filter over the start tags `HTMLParser` hands
    to `handle_starttag`, parameterised by what each listener does with one
    `href` value. */
module Anchors {
  import opened Results
  import opened Strings
  import opened Timestamp

  /** One attribute as `HTMLParser` reports it: a lower-cased name and a
      value that is `None` when the attribute is written without one. */
  datatype Attr = Attr(key: string, value: Option<string>)

  /** One start tag: its lower-cased name and its attributes in order. */
  datatype StartTag = StartTag(name: string, attrs: seq<Attr>)

  /** The `href` values of one tag's attribute list, in order. */
  function AttrHrefs(attrs: seq<Attr>): (r: seq<Option<string>>)
    ensures forall v :: v in r <==> exists j :: 0 <= j < |attrs| && attrs[j] == Attr("href", v)
    ensures |r| <= |attrs|
  {
    if |attrs| == 0 then []
    else (if attrs[0].key == "href" then [attrs[0].value] else []) + AttrHrefs(attrs[1..])
  }

  /** The `href` values of every `a` tag, in document order: the values the
      two `handle_starttag` loops look at, in the order they look at them. */
  function Hrefs(tags: seq<StartTag>): (r: seq<Option<string>>)
    ensures forall v :: v in r <==> exists k :: 0 <= k < |tags| && tags[k].name == "a" && v in AttrHrefs(tags[k].attrs)
  {
    if |tags| == 0 then []
    else (if tags[0].name == "a" then AttrHrefs(tags[0].attrs) else []) + Hrefs(tags[1..])
  }

  lemma {:induction false} HrefsAppend(a: seq<StartTag>, b: seq<StartTag>)
    ensures Hrefs(a + b) == Hrefs(a) + Hrefs(b)
  {
    if |a| > 0 {
      assert (a + b)[1..] == a[1..] + b;
      HrefsAppend(a[1..], b);
    } else {
      assert a + b == b;
    }
  }

  /** What a listener does with one `href` value: raise (`Err`), ignore it
      (`Ok(None)`), or append a link (`Ok(Some(link))`). */
  type Rule = Option<string> -> Result<Option<string>>

  /** The links one rule outcome appends: none or one. */
  function Emit(link: Option<string>): (r: seq<string>)
    ensures link.None? ==> r == []
    ensures link.Some? ==> r == [link.value]
  {
    if link.Some? then [link.value] else []
  }

  /** The links a listener collects from a sequence of `href` values; the
      first value the rule raises on aborts the whole parse. */
  function Select(values: seq<Option<string>>, rule: Rule): (r: Result<seq<string>>)
    ensures r.Ok? ==> |r.value| <= |values|
  {
    if |values| == 0 then Ok([])
    else match rule(values[0])
      case Err(e) => Err(e)
      case Ok(head) =>
        match Select(values[1..], rule)
        case Err(e) => Err(e)
        case Ok(rest) => Ok(Emit(head) + rest)
  }

  /** The parse succeeds exactly when the rule accepts every value, and a
      failed parse reports the error of the first value the rule raises on. */
  lemma {:induction false} SelectOutcome(values: seq<Option<string>>, rule: Rule)
    ensures Select(values, rule).Ok? <==> forall i :: 0 <= i < |values| ==> rule(values[i]).Ok?
    ensures Select(values, rule).Err? ==>
              exists i :: 0 <= i < |values| && rule(values[i]) == Err(Select(values, rule).error)
                          && forall j :: 0 <= j < i ==> rule(values[j]).Ok?
  {
    if |values| > 0 {
      var tail := values[1..];
      SelectOutcome(tail, rule);
      assert forall i :: 1 <= i < |values| ==> values[i] == tail[i - 1];
      if rule(values[0]).Ok? && Select(tail, rule).Err? {
        var i :| 0 <= i < |tail| && rule(tail[i]) == Err(Select(tail, rule).error)
                 && forall j :: 0 <= j < i ==> rule(tail[j]).Ok?;
        assert rule(values[i + 1]) == Err(Select(values, rule).error);
        assert forall j :: 0 <= j < i + 1 ==> rule(values[j]).Ok? by {
          forall j | 0 <= j < i + 1
            ensures rule(values[j]).Ok?
          {
            if j > 0 {
              assert values[j] == tail[j - 1];
            }
          }
        }
      }
    }
  }

  /** A successful parse collects exactly the links the rule produces. */
  lemma {:induction false} SelectMembers(values: seq<Option<string>>, rule: Rule)
    requires Select(values, rule).Ok?
    ensures forall x :: x in Select(values, rule).value <==>
              exists i :: 0 <= i < |values| && rule(values[i]) == Ok(Some(x))
  {
    if |values| > 0 {
      var tail := values[1..];
      SelectMembers(tail, rule);
      var head := rule(values[0]).value;
      assert Select(values, rule).value == Emit(head) + Select(tail, rule).value;
      forall x
        ensures x in Select(values, rule).value <==> exists i :: 0 <= i < |values| && rule(values[i]) == Ok(Some(x))
      {
        if x in Select(tail, rule).value {
          var i :| 0 <= i < |tail| && rule(tail[i]) == Ok(Some(x));
          assert values[i + 1] == tail[i];
        }
        if exists i :: 0 <= i < |values| && rule(values[i]) == Ok(Some(x)) {
          var i :| 0 <= i < |values| && rule(values[i]) == Ok(Some(x));
          if i > 0 {
            assert values[i] == tail[i - 1];
          }
        }
      }
    }
  }

  /** Selecting from a concatenation selects from each part and
      concatenates: links keep document order and duplicates survive. */
  lemma {:induction false} SelectAppend(a: seq<Option<string>>, b: seq<Option<string>>, rule: Rule)
    requires Select(a, rule).Ok? && Select(b, rule).Ok?
    ensures Select(a + b, rule) == Ok(Select(a, rule).value + Select(b, rule).value)
  {
    if |a| == 0 {
      assert a + b == b;
      assert Select(a, rule).value == [];
      assert [] + Select(b, rule).value == Select(b, rule).value;
    } else {
      var ab := a + b;
      assert ab[0] == a[0];
      assert ab[1..] == a[1..] + b;
      var h := Emit(rule(a[0]).value);
      var ra := Select(a[1..], rule).value;
      var rb := Select(b, rule).value;
      SelectCons(a, rule);
      SelectAppend(a[1..], b, rule);
      SelectCons(ab, rule);
      assert h + (ra + rb) == (h + ra) + rb;
    }
  }

  lemma SelectCons(values: seq<Option<string>>, rule: Rule)
    requires |values| > 0 && rule(values[0]).Ok? && Select(values[1..], rule).Ok?
    ensures Select(values, rule) == Ok(Emit(rule(values[0]).value) + Select(values[1..], rule).value)
  {
  }

  /** A single value yields at most the one link its rule produces. */
  lemma SelectOne(v: Option<string>, rule: Rule)
    ensures rule(v).Ok? ==> Select([v], rule) == Ok(Emit(rule(v).value))
    ensures rule(v).Err? ==> Select([v], rule) == Err(rule(v).error)
  {
    var vs := [v];
    assert vs[0] == v && vs[1..] == [];
    assert Select([], rule) == Ok([]);
    if rule(v).Ok? {
      assert Emit(rule(v).value) + [] == Emit(rule(v).value);
    }
  }

  /** Feeding a listener two pieces of a page collects the links of the
      first piece followed by those of the second. */
  lemma ListenerAppend(a: seq<StartTag>, b: seq<StartTag>, rule: Rule)
    requires Select(Hrefs(a), rule).Ok? && Select(Hrefs(b), rule).Ok?
    ensures Select(Hrefs(a + b), rule) == Ok(Select(Hrefs(a), rule).value + Select(Hrefs(b), rule).value)
  {
    HrefsAppend(a, b);
    SelectAppend(Hrefs(a), Hrefs(b), rule);
  }

  // ---------------------------------------------------------------- folder mode

  /** `href[:-1]` when `href[-1] == '/'`, else `href`. */
  function StripSlash(h: string): (r: string)
    requires |h| > 0
    ensures h[|h| - 1] == '/' ==> r + "/" == h
    ensures h[|h| - 1] != '/' ==> r == h
  {
    if h[|h| - 1] == '/' then h[..|h| - 1] else h
  }

  /** `FoldersHTMLParser.handle_starttag` on one `href` value. A missing
      value or an empty string fails the `href[-1]` index. */
  function FolderRule(v: Option<string>): (r: Result<Option<string>>)
    ensures v.None? ==> r == Err(HrefWithoutValue)
    ensures v == Some("") ==> r == Err(EmptyHref)
    ensures r.Ok? <==> v.Some? && |v.value| > 0
    ensures r.Ok? && r.value.Some? ==> IsValid(r.value.value) && r.value.value == StripSlash(v.value)
    ensures r.Ok? && r.value.None? ==> !IsValid(StripSlash(v.value))
  {
    match v
    case None => Err(HrefWithoutValue)
    case Some(h) =>
      if |h| == 0 then Err(EmptyHref)
      else
        var name := StripSlash(h);
        if IsValid(name) then Ok(Some(name)) else Ok(None)
  }

  /** `FoldersHTMLParser(...).feed(page).file_links`. */
  function FolderLinks(tags: seq<StartTag>): (r: Result<seq<string>>)
    ensures r.Err? ==> r.error == HrefWithoutValue || r.error == EmptyHref
  {
    SelectOutcome(Hrefs(tags), FolderRule);
    Select(Hrefs(tags), FolderRule)
  }

  /** The folder listener succeeds exactly when no anchor `href` is missing
      or empty. */
  lemma FolderLinksOutcome(tags: seq<StartTag>)
    ensures FolderLinks(tags).Ok? <==> None !in Hrefs(tags) && Some("") !in Hrefs(tags)
  {
    var vs := Hrefs(tags);
    SelectOutcome(vs, FolderRule);
    if None in vs || Some("") in vs {
      var i :| 0 <= i < |vs| && (vs[i] == None || vs[i] == Some(""));
      assert FolderRule(vs[i]).Err?;
    }
  }

  /** One name is a collected folder exactly when it is a valid timestamp
      that some non-empty `href` becomes once one trailing slash is gone. */
  lemma FolderMember(vs: seq<Option<string>>, x: string)
    requires Select(vs, FolderRule).Ok?
    ensures x in Select(vs, FolderRule).value <==>
              IsValid(x) && exists h :: Some(h) in vs && |h| > 0 && StripSlash(h) == x
  {
    SelectMembers(vs, FolderRule);
    if x in Select(vs, FolderRule).value {
      var i :| 0 <= i < |vs| && FolderRule(vs[i]) == Ok(Some(x));
      assert Some(vs[i].value) in vs;
    }
    if IsValid(x) && exists h :: Some(h) in vs && |h| > 0 && StripSlash(h) == x {
      var h :| Some(h) in vs && |h| > 0 && StripSlash(h) == x;
      var i :| 0 <= i < |vs| && vs[i] == Some(h);
      assert FolderRule(vs[i]) == Ok(Some(x));
    }
  }

  /** The folder listener succeeds exactly when every anchor `href` is a
      non-empty string, and then collects exactly the valid timestamps left
      after removing one trailing slash. */
  lemma FolderLinksSpec(tags: seq<StartTag>)
    ensures FolderLinks(tags).Ok? <==> None !in Hrefs(tags) && Some("") !in Hrefs(tags)
    ensures FolderLinks(tags).Ok? ==> forall x :: x in FolderLinks(tags).value <==>
              IsValid(x) && exists h :: Some(h) in Hrefs(tags) && |h| > 0 && StripSlash(h) == x
  {
    FolderLinksOutcome(tags);
    if FolderLinks(tags).Ok? {
      forall x
        ensures x in FolderLinks(tags).value <==>
                  IsValid(x) && exists h :: Some(h) in Hrefs(tags) && |h| > 0 && StripSlash(h) == x
      {
        FolderMember(Hrefs(tags), x);
      }
    }
  }

  // ---------------------------------------------------------------- file mode

  const Stage3Prefix: string := "stage3-amd64-hardened-openrc"
  const ArchiveSuffix: string := ".tar.xz"
  const SignatureSuffix: string := ".asc"

  /** The naming convention of the distributable files of one release. */
  predicate IsStage3Name(h: string) {
    StartsWith(h, Stage3Prefix) && (EndsWith(h, ArchiveSuffix) || EndsWith(h, SignatureSuffix))
  }

  /** `FilesHTMLParser.handle_starttag` on one `href` value. A missing value
      fails `startswith`. */
  function FileRule(v: Option<string>): (r: Result<Option<string>>)
    ensures r.Ok? <==> v.Some?
    ensures r.Err? ==> r.error == HrefWithoutValue
    ensures r.Ok? ==> (r.value.Some? <==> IsStage3Name(v.value))
    ensures r.Ok? && r.value.Some? ==> r.value.value == v.value
  {
    match v
    case None => Err(HrefWithoutValue)
    case Some(h) => if IsStage3Name(h) then Ok(Some(h)) else Ok(None)
  }

  /** `FilesHTMLParser(...).feed(page).file_links`. */
  function FileLinks(tags: seq<StartTag>): (r: Result<seq<string>>)
    ensures r.Err? ==> r.error == HrefWithoutValue
  {
    SelectOutcome(Hrefs(tags), FileRule);
    Select(Hrefs(tags), FileRule)
  }

  /** The file listener succeeds exactly when every anchor `href` has a
      value, and then collects, verbatim, exactly the stage3 names. */
  lemma FileLinksSpec(tags: seq<StartTag>)
    ensures FileLinks(tags).Ok? <==> None !in Hrefs(tags)
    ensures FileLinks(tags).Ok? ==> forall x :: x in FileLinks(tags).value <==> Some(x) in Hrefs(tags) && IsStage3Name(x)
  {
    var vs := Hrefs(tags);
    var r := FileLinks(tags);
    SelectOutcome(vs, FileRule);
    if r.Ok? {
      SelectMembers(vs, FileRule);
    }
    if None in vs {
      var i :| 0 <= i < |vs| && vs[i] == None;
      assert FileRule(vs[i]).Err?;
    }
    if r.Ok? {
      forall x
        ensures x in r.value <==> Some(x) in vs && IsStage3Name(x)
      {
        if Some(x) in vs && IsStage3Name(x) {
          var i :| 0 <= i < |vs| && vs[i] == Some(x);
          assert FileRule(vs[i]) == Ok(Some(x));
        }
      }
    }
  }
}
