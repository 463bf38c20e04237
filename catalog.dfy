/**
 * The read side of main.py: fetch_github_image_list keeps the image entries of
 * the directory listing, and the browse tab pairs each image with the
 * description stored under its base name, fetched from the raw-content URL.
 */
module Catalog {
  import opened Wrappers
  import opened PyStr
  import opened Naming
  import opened Http

  /** The directory-listing response: its status and the "name" of each entry
      of its JSON array, in the order the repository returned them. */
  datatype ListResponse = ListResponse(status: int, names: seq<string>)

  /** The listing GET (main.py:57) is made outside any try/except: it either
      responds or raises an exception that leaves main(). */
  datatype ListOutcome = Listed(response: ListResponse) | ListingRaised

  /** fetch_github_image_list: on a 200 listing, its image entries in listing
      order; on any other status, no images at all. */
  function FetchImageList(listing: ListResponse): (images: seq<string>)
    ensures listing.status != 200 ==> images == []
    ensures forall x :: x in images <==> listing.status == 200 && x in listing.names && IsImageName(x)
  {
    if listing.status == 200 then FilterImages(listing.names) else []
  }

  /** The description shown for one image: the stripped text of a 200 response,
      and nothing for any other status or for an exception. */
  function DescriptionOf(outcome: CallOutcome): (d: Option<string>)
    ensures d.Some? <==> outcome.Responded? && outcome.response.status == 200
    ensures d.Some? ==> d.value == Strip(outcome.response.text)
  {
    match outcome
    case Responded(response) =>
      if response.status == 200 then Some(Strip(response.text)) else None
    case Raised => None
  }

  /** What the browse tab shows for one image. */
  datatype CatalogEntry = CatalogEntry(
    name: string, imageUrl: string, descriptionUrl: string, description: Option<string>)

  /** The description GETs of one browse: fetch(k, url) is what the GET of url
      made for the k-th listed image yields. Each image makes its own GET, so
      two images with the same base name may see different outcomes. */
  type Fetches = (nat, string) -> CallOutcome

  /** The entry of name, listed at position k, given what each GET yields. */
  function EntryFor(cfg: Config, k: nat, name: string, fetch: Fetches): (e: CatalogEntry)
    ensures e.name == name && e.imageUrl == RawUrl(cfg, name)
    ensures e.descriptionUrl == DescriptionUrl(cfg, name)
    ensures e.description.Some? <==>
      fetch(k, e.descriptionUrl).Responded? && fetch(k, e.descriptionUrl).response.status == 200
    ensures e.description.Some? ==> e.description.value == Strip(fetch(k, e.descriptionUrl).response.text)
  {
    var descriptionUrl := DescriptionUrl(cfg, name);
    CatalogEntry(name, RawUrl(cfg, name), descriptionUrl, DescriptionOf(fetch(k, descriptionUrl)))
  }

  /** The try/except around one description fetch (main.py:116-121): a 200
      response gives its stripped text; any other status, or an exception,
      gives no description and is not propagated. */
  method FetchDescription(k: nat, url: string, fetch: Fetches) returns (description: Option<string>)
    ensures description == DescriptionOf(fetch(k, url))
  {
    description := None;
    match fetch(k, url) {
      case Responded(response) =>
        if response.status == 200 {
          description := Some(Strip(response.text));
        }
      case Raised =>
    }
  }

  /** The browse tab (main.py:106-123): one entry per listed image, in listing
      order; each description fetch is made inside try/except, so its failure
      only leaves that entry without a description. An exception from the
      listing request itself is not caught: nothing is shown. */
  method Browse(cfg: Config, listing: ListOutcome, fetch: Fetches)
    returns (entries: seq<CatalogEntry>, raised: bool)
    ensures raised <==> listing.ListingRaised?
    ensures raised ==> entries == []
    ensures !raised ==> var images := FetchImageList(listing.response);
      && |entries| == |images|
      && forall i :: 0 <= i < |images| ==> entries[i] == EntryFor(cfg, i, images[i], fetch)
  {
    entries := [];
    if listing.ListingRaised? {
      raised := true;
      return;
    }
    raised := false;
    var images := FetchImageList(listing.response);
    entries := ShowEntries(cfg, images, fetch);
  }

  /** The loop over the listed images (main.py:107-123): one entry per name,
      in order. */
  method ShowEntries(cfg: Config, images: seq<string>, fetch: Fetches)
    returns (entries: seq<CatalogEntry>)
    ensures |entries| == |images|
    ensures forall i :: 0 <= i < |images| ==> entries[i] == EntryFor(cfg, i, images[i], fetch)
  {
    entries := [];
    for k := 0 to |images|
      invariant |entries| == k
      invariant forall i :: 0 <= i < k ==> entries[i] == EntryFor(cfg, i, images[i], fetch)
    {
      var entry := ShowEntry(cfg, k, images[k], fetch);
      entries := entries + [entry];
    }
  }

  /** The body of the browse loop (main.py:109-123) for the image name listed
      at position k: its base name, its raw URL, its description URL and the
      description its own GET fetched. */
  method ShowEntry(cfg: Config, k: nat, name: string, fetch: Fetches) returns (entry: CatalogEntry)
    ensures entry == EntryFor(cfg, k, name, fetch)
  {
    var baseName := BaseName(name);
    var imageUrl := RawUrl(cfg, name);
    var descriptionUrl := RawUrl(cfg, baseName + ".txt");
    var description := FetchDescription(k, descriptionUrl, fetch);
    entry := CatalogEntry(name, imageUrl, descriptionUrl, description);
  }

  /** Whatever any other GET yields, an entry depends only on its own GET of
      its own description URL: a failed fetch for another image, even one with
      the same base name, does not affect it. */
  lemma EntryDependsOnlyOnOwnFetch(cfg: Config, k: nat, name: string, f: Fetches, g: Fetches)
    requires f(k, DescriptionUrl(cfg, name)) == g(k, DescriptionUrl(cfg, name))
    ensures EntryFor(cfg, k, name, f) == EntryFor(cfg, k, name, g)
  {
  }

  /** An image stored under key is listed, and browsing it looks up exactly the
      description file written with it and shows that file's stripped text when
      it is served with 200. */
  lemma BrowseFindsUploadedPair(cfg: Config, key: string, listing: ListResponse, k: nat, fetch: Fetches)
    requires listing.status == 200 && ImageFileName(key) in listing.names
    ensures ImageFileName(key) in FetchImageList(listing)
    ensures DescriptionFileName(key) !in FetchImageList(listing)
    ensures var e := EntryFor(cfg, k, ImageFileName(key), fetch);
      && e.imageUrl == RawUrl(cfg, ImageFileName(key))
      && e.descriptionUrl == RawUrl(cfg, DescriptionFileName(key))
      && e.description == DescriptionOf(fetch(k, RawUrl(cfg, DescriptionFileName(key))))
  {
    ImageFileNameIsImage(key);
    DescriptionFileNameNeverImage(key);
    DescriptionUrlRoundTrip(cfg, key);
  }

  /** A listing holding k1.png, k1.txt and k2.jpg, for any stems k1 and k2,
      yields the two images in listing order and leaves the text file out. */
  lemma ExampleListing(k1: string, k2: string)
    ensures FetchImageList(ListResponse(200, [k1 + ".png", k1 + ".txt", k2 + ".jpg"]))
         == [k1 + ".png", k2 + ".jpg"]
  {
    var a, b, c := k1 + ".png", k1 + ".txt", k2 + ".jpg";
    assert IsImageName(a) by { ExtensionMakesImage(k1, ".png"); }
    assert !IsImageName(b) by { DescriptionFileNameNeverImage(k1); }
    assert IsImageName(c) by { ExtensionMakesImage(k2, ".jpg"); }
    FilterOfThree(a, b, c);
  }

  /** The filter over a three-entry listing whose middle entry is not an image. */
  lemma FilterOfThree(a: string, b: string, c: string)
    requires IsImageName(a) && !IsImageName(b) && IsImageName(c)
    ensures FilterImages([a, b, c]) == [a, c]
  {
    assert [a, b, c][1..] == [b, c] && [b, c][1..] == [c];
  }

  /** Stripping the example description removes its surrounding blanks. */
  lemma ExampleStrip()
    ensures Strip(" a cat\n") == "a cat"
  {
    var s, t, u := " a cat\n", "a cat\n", "a cat";
    assert IsSpace(s[0]) && s[1..] == t;
    assert !IsSpace(t[0]);
    assert StripLeft(t) == t;
    assert StripLeft(s) == t;
    assert IsSpace(t[|t| - 1]) && t[..|t| - 1] == u;
    assert !IsSpace(u[|u| - 1]);
    assert StripRight(u) == u;
    assert StripRight(t) == u;
  }

  /** Browsing that listing: k1.png, listed first, shows the stripped text of
      k1.txt, and k2.jpg, listed second, whose description GET answers 404,
      shows none. */
  lemma BrowseExample(cfg: Config, k1: string, k2: string, fetch: Fetches)
    requires fetch(0, RawUrl(cfg, k1 + ".txt")) == Responded(HttpResponse(200, " a cat\n"))
    requires fetch(1, RawUrl(cfg, k2 + ".txt")) == Responded(HttpResponse(404, "404: Not Found"))
    ensures EntryFor(cfg, 0, k1 + ".png", fetch).description == Some("a cat")
    ensures EntryFor(cfg, 1, k2 + ".jpg", fetch).description == None
  {
    assert k1 + ".png" == k1 + ['.'] + "png";
    RSplitOnceHeadOfJoin(k1, '.', "png");
    assert k2 + ".jpg" == k2 + ['.'] + "jpg";
    RSplitOnceHeadOfJoin(k2, '.', "jpg");
    ExampleStrip();
  }

  /** k.png and k.jpg share the description URL of k.txt, yet each makes its
      own GET: when the first GET raises and the second answers 200, the first
      entry has no description and the second shows the stripped text. */
  lemma SharedBaseNameFetchedTwice(cfg: Config, k: string, fetch: Fetches)
    requires fetch(0, RawUrl(cfg, k + ".txt")) == Raised
    requires fetch(1, RawUrl(cfg, k + ".txt")) == Responded(HttpResponse(200, " a cat\n"))
    ensures EntryFor(cfg, 0, k + ".png", fetch).descriptionUrl == EntryFor(cfg, 1, k + ".jpg", fetch).descriptionUrl
    ensures EntryFor(cfg, 0, k + ".png", fetch).description == None
    ensures EntryFor(cfg, 1, k + ".jpg", fetch).description == Some("a cat")
  {
    assert k + ".png" == k + ['.'] + "png";
    RSplitOnceHeadOfJoin(k, '.', "png");
    assert k + ".jpg" == k + ['.'] + "jpg";
    RSplitOnceHeadOfJoin(k, '.', "jpg");
    ExampleStrip();
  }
}
