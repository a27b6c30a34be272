/** Concrete scenarios for the release pipeline, each checked against the
    model. */
module Examples {
  import opened Results
  import opened Strings
  import opened Timestamp
  import opened Latest
  import opened Anchors
  import opened Signature
  import opened Fetch
  import opened Partitions

  lemma PadOne(d: nat)
    requires d < 10
    ensures Pad(d, 1) == [DigitChar(d)]
  {
    assert Pad(d, 1) == Pad(d / 10, 0) + [DigitChar(d % 10)];
  }

  lemma PadTwo(n: nat)
    requires n < 100
    ensures Pad(n, 2) == [DigitChar(n / 10), DigitChar(n % 10)]
  {
    var q := n / 10;
    assert Pad(n, 2) == Pad(q, 1) + [DigitChar(n % 10)];
    PadOne(q);
  }

  lemma PadFour(n: nat)
    requires n < 10000
    ensures Pad(n, 4) == [DigitChar(n / 1000), DigitChar(n / 100 % 10), DigitChar(n / 10 % 10), DigitChar(n % 10)]
  {
    var q := n / 10;
    var h := q / 10;
    assert Pad(n, 4) == Pad(q, 3) + [DigitChar(n % 10)];
    assert Pad(q, 3) == Pad(h, 2) + [DigitChar(q % 10)];
    PadTwo(h);
    assert h == n / 100 && h / 10 == n / 1000 && q % 10 == n / 10 % 10 && h % 10 == n / 100 % 10;
  }

  lemma FormatJune()
    ensures Format(DateTime(2024, 6, 1, 12, 0, 0)) == "20240601T120000Z"
  {
    PadFour(2024);
    PadTwo(6);
    PadTwo(1);
    PadTwo(12);
    PadTwo(0);
  }

  lemma ExampleTimestampValue()
    ensures Parse("20240601T120000Z") == Some(DateTime(2024, 6, 1, 12, 0, 0))
  {
    FormatJune();
    ParseFormat(DateTime(2024, 6, 1, 12, 0, 0));
  }

  lemma FormatJanuary()
    ensures Format(DateTime(2024, 1, 1, 0, 0, 0)) == "20240101T000000Z"
  {
    PadFour(2024);
    PadTwo(1);
    PadTwo(0);
  }

  function Anchor(href: string): StartTag {
    StartTag("a", [Attr("href", Some(href))])
  }

  lemma OneAnchor(h: string, rest: seq<StartTag>)
    ensures Hrefs([Anchor(h)] + rest) == [Some(h)] + Hrefs(rest)
  {
    var tags := [Anchor(h)] + rest;
    assert tags[0] == Anchor(h) && tags[1..] == rest;
    var attrs := Anchor(h).attrs;
    assert attrs[1..] == [];
    assert AttrHrefs(attrs) == [Some(h)] + AttrHrefs([]);
  }

  lemma ThreeAnchors(a: string, b: string, c: string)
    ensures Hrefs([Anchor(a), Anchor(b), Anchor(c)]) == [Some(a), Some(b), Some(c)]
  {
    OneAnchor(c, []);
    OneAnchor(b, [Anchor(c)]);
    OneAnchor(a, [Anchor(b), Anchor(c)]);
    assert [Anchor(c)] + [] == [Anchor(c)];
    assert [Anchor(b)] + [Anchor(c)] == [Anchor(b), Anchor(c)];
    assert [Anchor(a)] + [Anchor(b), Anchor(c)] == [Anchor(a), Anchor(b), Anchor(c)];
  }

  lemma SelectThree(v0: Option<string>, v1: Option<string>, v2: Option<string>, rule: Rule)
    requires rule(v0).Ok? && rule(v1).Ok? && rule(v2).Ok?
    ensures Select([v0, v1, v2], rule) == Ok(Emit(rule(v0).value) + Emit(rule(v1).value) + Emit(rule(v2).value))
  {
    var vs := [v0, v1, v2];
    assert vs[1..] == [v1, v2] && vs[1..][1..] == [v2] && vs[1..][1..][1..] == [];
    var e0, e1, e2 := Emit(rule(v0).value), Emit(rule(v1).value), Emit(rule(v2).value);
    assert Select([v2], rule) == Ok(e2 + []);
    assert Select([v1, v2], rule) == Ok(e1 + (e2 + []));
    assert Select(vs, rule) == Ok(e0 + (e1 + (e2 + [])));
    assert e0 + (e1 + (e2 + [])) == e0 + e1 + e2;
  }

  lemma ExampleNamesValidity()
    ensures IsValid("20240101T000000Z") && IsValid("20240601T120000Z") && !IsValid("not-a-date")
  {
    FormatJanuary();
    ParseFormat(DateTime(2024, 1, 1, 0, 0, 0));
    FormatJune();
    ParseFormat(DateTime(2024, 6, 1, 12, 0, 0));
  }

  /** A valid release folder listed with its trailing slash is kept, without
      the slash. */
  lemma FolderRuleKeeps(name: string)
    requires IsValid(name)
    ensures FolderRule(Some(name + "/")) == Ok(Some(name))
  {
    assert (name + "/")[..|name|] == name;
  }

  lemma FolderRuleExamples()
    ensures FolderRule(Some("20240101T000000Z/")) == Ok(Some("20240101T000000Z"))
    ensures FolderRule(Some("not-a-date/")) == Ok(None)
    ensures FolderRule(Some("20240601T120000Z/")) == Ok(Some("20240601T120000Z"))
  {
    ExampleNamesValidity();
    FolderRuleKeeps("20240101T000000Z");
    FolderRuleKeeps("20240601T120000Z");
    assert "20240101T000000Z/" == "20240101T000000Z" + "/";
    assert "20240601T120000Z/" == "20240601T120000Z" + "/";
    assert StripSlash("not-a-date/") == "not-a-date";
  }

  /** An index page listing two release folders and one other directory
      yields the two timestamps, in page order, without their slashes. */
  lemma FolderModeExample(a: string, other: string, b: string)
    requires IsValid(a) && IsValid(b)
    requires |other| > 0 && !IsValid(StripSlash(other))
    ensures FolderLinks([Anchor(a + "/"), Anchor(other), Anchor(b + "/")]) == Ok([a, b])
  {
    ThreeAnchors(a + "/", other, b + "/");
    FolderRuleKeeps(a);
    FolderRuleKeeps(b);
    SelectThree(Some(a + "/"), Some(other), Some(b + "/"), FolderRule);
    assert [a] + [] + [b] == [a, b];
  }

  /** The later of the two folders is the one chosen. */
  lemma LatestExample()
    ensures FindLatest(["20240101T000000Z", "20240601T120000Z"]) == Ok("20240601T120000Z")
  {
    var jan, jun := DateTime(2024, 1, 1, 0, 0, 0), DateTime(2024, 6, 1, 12, 0, 0);
    FormatJanuary();
    ParseFormat(jan);
    FormatJune();
    ParseFormat(jun);
    var names := ["20240101T000000Z", "20240601T120000Z"];
    assert Parse(names[0]) == Some(jan) && Parse(names[1]) == Some(jun);
    var r := FindLatest(names);
    assert r.Ok?;
    assert !Before(Parse(r.value).value, jun);
    assert Before(jan, jun);
    assert r.value == names[0] || r.value == names[1];
  }

  const ExampleArchive: string := "stage3-amd64-hardened-openrc-20240601T120000Z.tar.xz"
  const ExampleSignature: string := "stage3-amd64-hardened-openrc-20240601T120000Z.tar.xz.asc"

  lemma FileRuleExamples()
    ensures FileRule(Some("readme.txt")) == Ok(None)
    ensures FileRule(Some(ExampleArchive)) == Ok(Some(ExampleArchive))
    ensures FileRule(Some(ExampleSignature)) == Ok(Some(ExampleSignature))
  {
    assert !StartsWith("readme.txt", Stage3Prefix);
    assert ExampleArchive[..|Stage3Prefix|] == Stage3Prefix;
    assert ExampleArchive[|ExampleArchive| - |ArchiveSuffix|..] == ArchiveSuffix;
    assert ExampleSignature[..|Stage3Prefix|] == Stage3Prefix;
    assert ExampleSignature[|ExampleSignature| - |SignatureSuffix|..] == SignatureSuffix;
  }

  /** A release folder listing a readme, an archive and its signature
      yields the two stage3 entries. */
  lemma FileModeExample()
    ensures FileLinks([Anchor("readme.txt"), Anchor(ExampleArchive), Anchor(ExampleSignature)])
         == Ok([ExampleArchive, ExampleSignature])
  {
    ThreeAnchors("readme.txt", ExampleArchive, ExampleSignature);
    FileRuleExamples();
    SelectThree(Some("readme.txt"), Some(ExampleArchive), Some(ExampleSignature), FileRule);
    assert [] + [ExampleArchive] + [ExampleSignature] == [ExampleArchive, ExampleSignature];
  }

  lemma ArchiveNameExample()
    ensures EndsWith(ExampleSignature, SignatureSuffix)
    ensures ArchiveName(ExampleSignature) == ExampleArchive
  {
    assert ExampleSignature[|ExampleSignature| - |SignatureSuffix|..] == SignatureSuffix;
  }

  /** With gpg accepting the signature the archive is named; with gpg
      rejecting it the result is the verification error. */
  lemma VerifyExamples()
    ensures VerifyStage3([ExampleArchive, ExampleSignature], _ => true, _ => true) == Ok(ExampleArchive)
    ensures VerifyStage3([ExampleArchive, ExampleSignature], _ => false, _ => true)
         == Err(VerificationFailed(ExampleSignature))
  {
    ArchiveNameExample();
    assert !EndsWith(ExampleArchive, SignatureSuffix) by {
      assert ExampleArchive[|ExampleArchive| - |SignatureSuffix|..] != SignatureSuffix;
    }
    FirstSignatureUnique([ExampleArchive, ExampleSignature], 1);
  }

  /** A mirror whose `/a` answers 301 to `b`, whose `/b` answers 302 to
      `c`, and whose `/c` serves the index. */
  function Mirror(u: string): Response {
    if u == "https://m/a" then Response(301, Some("b"), "Moved Permanently", "")
    else if u == "https://m/b" then Response(302, Some("c"), "Found", "")
    else if u == "https://m/c" then Response(200, None, "OK", "index")
    else Response(404, None, "Not Found", "")
  }

  function MirrorJoin(base: string, ref: string): string {
    "https://m/" + ref
  }

  /** A chain of two redirects resolves to the last page and its URL; with
      only two requests allowed it runs out. */
  lemma RedirectChainExample()
    ensures FetchPage("https://m/a", Mirror, MirrorJoin, 3) == Ok(Page("index", "https://m/c"))
    ensures FetchPage("https://m/a", Mirror, MirrorJoin, 2) == Err(TooManyRedirects)
  {
    assert MirrorJoin("https://m/a", "b") == "https://m/b";
    assert MirrorJoin("https://m/b", "c") == "https://m/c";
    assert Decide("https://m/a", Mirror("https://m/a"), MirrorJoin) == Follow("https://m/b");
    assert Decide("https://m/b", Mirror("https://m/b"), MirrorJoin) == Follow("https://m/c");
    assert Decide("https://m/c", Mirror("https://m/c"), MirrorJoin) == Deliver("index");
  }

  /** A 301 whose `Location` header is empty is not followed: it fails with
      its own status. */
  lemma EmptyLocationExample()
    ensures FetchPage("u", _ => Response(301, Some(""), "Moved Permanently", ""), MirrorJoin, 5)
         == Err(HttpStatus(301, "Moved Permanently"))
  {
  }

  /** A redirect cycle exhausts any number of requests. */
  lemma {:induction false} RedirectLoopExample(fuel: nat)
    ensures FetchPage("https://m/x", _ => Response(302, Some("x"), "Found", ""), MirrorJoin, fuel) == Err(TooManyRedirects)
    decreases fuel
  {
    if fuel > 0 {
      assert MirrorJoin("https://m/x", "x") == "https://m/x";
      RedirectLoopExample(fuel - 1);
    }
  }

  /** The boot partition made by parted shows as about 1.9G, but "463.8G"
      compares greater as a string, so the root-sized child becomes boot;
      and "9G" compares greater than "10G". */
  lemma PartitionRoleExamples()
    ensures RolesFor([Partition("sda1", "1.9G"), Partition("sda2", "463.8G")]) == Roles("/dev/sda2", "/dev/sda1")
    ensures RolesFor([Partition("sda1", "9G"), Partition("sda2", "10G")]) == Roles("/dev/sda1", "/dev/sda2")
  {
    assert LexLess("1.9G", "463.8G");
    assert LexLess("10G", "9G");
  }
}
