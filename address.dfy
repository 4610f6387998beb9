/** The pagination cursor of main.py: the folder address is split at its last
    slash into a base address and an integer page, and page `p` is reloaded as
    `base + "/" + str(p)`. */
module Address {
  import opened Basics
  import opened Text

  datatype Location = Location(base: string, page: int)

  /** Why a folder address could not be split: `rsplit` found no slash (the
      two-name unpacking raises ValueError), or `int` rejected the segment. */
  datatype AddressError = NoSeparator | NotAnInteger(segment: string)

  function LastIndexOf(s: string, c: char): (r: Option<nat>)
    ensures r.None? <==> c !in s
    ensures r.Some? ==> r.value < |s| && s[r.value] == c && c !in s[r.value + 1..]
  {
    if s == [] then None
    else if s[|s| - 1] == c then Some(|s| - 1)
    else
      var r := LastIndexOf(s[..|s| - 1], c);
      assert r.Some? ==> s[r.value + 1..] == s[..|s| - 1][r.value + 1..] + [s[|s| - 1]];
      r
  }

  /** `base, segment = url.rsplit("/", 1)`: None when the unpacking fails. */
  function SplitLast(url: string): (r: Option<(string, string)>)
    ensures r.None? <==> '/' !in url
    ensures r.Some? ==> url == r.value.0 + "/" + r.value.1 && '/' !in r.value.1
  {
    match LastIndexOf(url, '/')
    case None => None
    case Some(k) =>
      assert url == url[..k] + "/" + url[k + 1..];
      Some((url[..k], url[k + 1..]))
  }

  /** main.py's `folder_url, page = current_url.rsplit("/", 1)` followed by
      `page = int(page)`. */
  function SplitUrl(url: string): Result<Location, AddressError> {
    match SplitLast(url)
    case None => Err(NoSeparator)
    case Some((base, segment)) =>
      match ParseInt(segment)
      case None => Err(NotAnInteger(segment))
      case Some(page) => Ok(Location(base, page))
  }

  /** The address main.py reloads: `f"{folder_url}/{page}"`. */
  function Addr(loc: Location): string {
    loc.base + "/" + IntToString(loc.page)
  }

  lemma {:induction false} LastSlashOf(base: string, segment: string)
    requires '/' !in segment
    ensures LastIndexOf(base + "/" + segment, '/') == Some(|base|)
    decreases |segment|
  {
    var url := base + "/" + segment;
    if segment != [] {
      var init := segment[..|segment| - 1];
      assert url[..|url| - 1] == base + "/" + init;
      assert segment[|segment| - 1] in segment;
      assert forall c :: c in init ==> c in segment;
      LastSlashOf(base, init);
    }
  }

  /** Splitting an address built from a location gives that location back. */
  lemma SplitAddr(loc: Location)
    ensures SplitUrl(Addr(loc)) == Ok(loc)
  {
    var url, segment := Addr(loc), IntToString(loc.page);
    IntToStringHasNoSlash(loc.page);
    LastSlashOf(loc.base, segment);
    assert url[..|loc.base|] == loc.base && url[|loc.base| + 1..] == segment;
    IntToStringRoundTrip(loc.page);
  }

  /** When the trailing segment is written the way `str` writes integers, the
      address rebuilt from the split is the address that was split, so the
      first page the loop loads is the page the folder opened on. */
  lemma AddrOfSplit(url: string)
    requires SplitLast(url).Some? && Canonical(SplitLast(url).value.1)
    ensures SplitUrl(url).Ok? && Addr(SplitUrl(url).value) == url
  {
    CanonicalRoundTrip(SplitLast(url).value.1);
  }

  /** Every address the loop loads is split into its own location, at a
      segment written canonically; so `AddrOfSplit` applies to it and
      splitting and reloading it lands on the same address. */
  lemma AddrIsCanonical(loc: Location)
    ensures SplitLast(Addr(loc)) == Some((loc.base, IntToString(loc.page)))
    ensures Canonical(SplitLast(Addr(loc)).value.1)
    ensures Addr(SplitUrl(Addr(loc)).value) == Addr(loc)
  {
    var url, segment := Addr(loc), IntToString(loc.page);
    IntToStringHasNoSlash(loc.page);
    LastSlashOf(loc.base, segment);
    assert url[..|loc.base|] == loc.base && url[|loc.base| + 1..] == segment;
    IntToStringCanonical(loc.page);
    AddrOfSplit(url);
  }

  /** A trailing segment that `int` rejects is reported, with the segment. */
  lemma SplitRejectsNonInteger(base: string, segment: string)
    requires '/' !in segment && ParseInt(segment).None?
    ensures SplitUrl(base + "/" + segment) == Err(NotAnInteger(segment))
  {
    var url := base + "/" + segment;
    LastSlashOf(base, segment);
    assert url[..|base|] == base && url[|base| + 1..] == segment;
  }

  /** An address without any slash cannot be unpacked into base and page. */
  lemma SplitRejectsNoSlash(url: string)
    requires '/' !in url
    ensures SplitUrl(url) == Err(NoSeparator)
  {
  }

  /** A worked example: ".../inbox/7" is page 7 of ".../inbox". */
  lemma SplitExamplePage()
    ensures SplitUrl("https://mail/inbox/7") == Ok(Location("https://mail/inbox", 7))
  {
    SplitAddr(Location("https://mail/inbox", 7));
    assert Addr(Location("https://mail/inbox", 7)) == "https://mail/inbox/7";
  }

  /** A worked example: ".../inbox/x" is malformed. */
  lemma SplitExampleMalformed()
    ensures SplitUrl("https://mail/inbox/x") == Err(NotAnInteger("x"))
  {
    assert Strip("x") == "x";
    SplitRejectsNonInteger("https://mail/inbox", "x");
    assert "https://mail/inbox" + "/" + "x" == "https://mail/inbox/x";
  }
}
