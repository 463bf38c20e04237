/**
 * How main.py names what it stores and finds it again: the key of an upload,
 * the image and description file names built from it, the raw-content URLs,
 * the commit message, the filter that picks images out of a directory listing
 * and the base name an image's description is looked up under.
 */
module Naming {
  import opened Wrappers
  import opened PyStr

  /** The repository coordinates read once from the secrets store (main.py:7-10). */
  datatype Config = Config(token: string, repo: string, branch: string, path: string)

  // ---------------------------------------------------------------------------
  // Keys and file names
  // ---------------------------------------------------------------------------

  /** The key f"{now}_{idx}" of the upload at position index of its batch. */
  function Key(timestamp: string, index: nat): string {
    timestamp + "_" + NatToString(index)
  }

  /** A key is its timestamp, an underscore, and the decimal digits of its
      index, so both can be read back from it. */
  lemma KeyLayout(timestamp: string, index: nat)
    ensures var k := Key(timestamp, index);
      && |timestamp| < |k| && k[..|timestamp|] == timestamp && k[|timestamp|] == '_'
      && AllDigits(k[|timestamp| + 1..]) && DigitsValue(k[|timestamp| + 1..]) == index
  {
    NatToStringRoundTrip(index);
    assert Key(timestamp, index)[|timestamp| + 1..] == NatToString(index);
  }

  /** f"{base_filename}.jpg": every image is stored as .jpg, whatever its format. */
  function ImageFileName(key: string): string {
    key + ".jpg"
  }

  /** f"{filename_base}.txt": where the description of key is stored. */
  function DescriptionFileName(key: string): string {
    key + ".txt"
  }

  /** The image file of key is the key followed by ".jpg". */
  lemma ImageFileNameLayout(key: string)
    ensures var name := ImageFileName(key);
      |name| == |key| + 4 && name[..|key|] == key && name[|key|..] == ".jpg"
  {
    assert ImageFileName(key)[..|key|] == key;
  }

  /** The description file of key is the key followed by ".txt". */
  lemma DescriptionFileNameLayout(key: string)
    ensures var name := DescriptionFileName(key);
      |name| == |key| + 4 && name[..|key|] == key && name[|key|..] == ".txt"
  {
    assert DescriptionFileName(key)[..|key|] == key;
  }

  /** f"Add {file_name}": the commit message of every write. */
  function CommitMessage(fileName: string): (m: string)
    ensures |m| == |fileName| + 4 && m[..4] == "Add " && m[4..] == fileName
  {
    "Add " + fileName
  }

  /** The last '_' of a key is the one Key puts after the timestamp, whatever
      the timestamp holds, because the decimal index has no '_'. */
  lemma KeyLastUnderscore(ts: string, i: nat)
    ensures LastIndexOf(Key(ts, i), '_') == Some(|ts|)
  {
    var k, d := Key(ts, i), NatToString(i);
    assert k[|ts|] == '_';
    assert k[|ts| + 1..] == d;
    assert '_' !in d by {
      forall p | 0 <= p < |d| ensures d[p] != '_' {
        assert IsDigit(d[p]);
      }
    }
  }

  /** Two keys coincide exactly when both the timestamps and the indices do. */
  lemma KeyInjective(ts1: string, i: nat, ts2: string, j: nat)
    ensures Key(ts1, i) == Key(ts2, j) <==> ts1 == ts2 && i == j
  {
    if Key(ts1, i) == Key(ts2, j) {
      KeyLastUnderscore(ts1, i);
      KeyLastUnderscore(ts2, j);
      assert |ts1| == |ts2|;
      KeyLayout(ts1, i);
      KeyLayout(ts2, j);
    }
  }

  /** Two batch items with different indices never share a key, even when the
      clock has moved on (or not) between them. */
  lemma DistinctIndicesDistinctKeys(ts1: string, i: nat, ts2: string, j: nat)
    requires i != j
    ensures Key(ts1, i) != Key(ts2, j)
  {
    KeyInjective(ts1, i, ts2, j);
  }

  /** The image and the description of one key differ only in their last
      three characters, the extension. */
  lemma FileNamesDifferOnlyInExtension(key: string)
    ensures var img, desc := ImageFileName(key), DescriptionFileName(key);
      && |img| == |desc| == |key| + 4
      && img[..|key| + 1] == desc[..|key| + 1] == key + "."
      && img[|key| + 1..] == "jpg" && desc[|key| + 1..] == "txt"
  {
  }

  /** No image file name is ever a description file name. */
  lemma ImageNeverDescription(k1: string, k2: string)
    ensures ImageFileName(k1) != DescriptionFileName(k2)
  {
    var a, b := ImageFileName(k1), DescriptionFileName(k2);
    if |a| == |b| {
      assert a[|a| - 1] == 'g' && b[|b| - 1] == 't';
    }
  }

  /** Image file names are equal exactly when their keys are. */
  lemma ImageFileNameInjective(k1: string, k2: string)
    ensures ImageFileName(k1) == ImageFileName(k2) <==> k1 == k2
  {
    if ImageFileName(k1) == ImageFileName(k2) {
      assert k1 == ImageFileName(k1)[..|k1|];
    }
  }

  /** Description file names are equal exactly when their keys are. */
  lemma DescriptionFileNameInjective(k1: string, k2: string)
    ensures DescriptionFileName(k1) == DescriptionFileName(k2) <==> k1 == k2
  {
    if DescriptionFileName(k1) == DescriptionFileName(k2) {
      assert k1 == DescriptionFileName(k1)[..|k1|];
    }
  }

  // ---------------------------------------------------------------------------
  // URLs
  // ---------------------------------------------------------------------------

  const RawHost := "https://raw.githubusercontent.com/"

  /** The raw-content directory every stored file is served from: the host,
      then repository, branch and path, ending in '/'. */
  function RawPrefix(cfg: Config): (p: string)
    ensures |p| > |RawHost| && p[..|RawHost|] == RawHost && p[|p| - 1] == '/'
    ensures |p| > |RawHost| + |cfg.repo| && p[|RawHost|..|RawHost| + |cfg.repo|] == cfg.repo
    ensures p[|RawHost| + |cfg.repo|..] == "/" + cfg.branch + "/" + cfg.path + "/"
  {
    RawHost + cfg.repo + "/" + cfg.branch + "/" + cfg.path + "/"
  }

  /** The raw-content URL of fileName in the configured directory. */
  function RawUrl(cfg: Config, fileName: string): (u: string)
    ensures |u| == |RawPrefix(cfg)| + |fileName|
    ensures u[..|RawPrefix(cfg)|] == RawPrefix(cfg) && u[|RawPrefix(cfg)|..] == fileName
  {
    RawPrefix(cfg) + fileName
  }

  /** Raw-content URLs name files one to one. */
  lemma RawUrlInjective(cfg: Config, a: string, b: string)
    ensures RawUrl(cfg, a) == RawUrl(cfg, b) <==> a == b
  {
  }

  // ---------------------------------------------------------------------------
  // Listing filter
  // ---------------------------------------------------------------------------

  /** f["name"].lower().endswith((".jpg", ".jpeg", ".png")). Every accepted
      name is at least four characters long and ends in a 'g' or a 'G'. */
  predicate IsImageName(name: string)
    ensures IsImageName(name) ==> |name| >= 4
  {
    var l := Lower(name);
    EndsWith(l, ".jpg") || EndsWith(l, ".jpeg") || EndsWith(l, ".png")
  }

  /** Every accepted name ends in a 'g' or a 'G'. */
  lemma ImageNameEndsInG(name: string)
    requires IsImageName(name)
    ensures name[|name| - 1] == 'g' || name[|name| - 1] == 'G'
  {
    var l := Lower(name);
    assert l[|l| - 1] == 'g';
  }

  /** A name whose lower-cased form ends in ".txt" is never taken for an image. */
  lemma TextNameNeverImage(name: string)
    requires EndsWith(Lower(name), ".txt")
    ensures !IsImageName(name)
  {
    var l := Lower(name);
    assert l[|l| - 1] == 't';
  }

  /** One of the three extensions the listing filter accepts, written in any
      mix of upper and lower case. */
  predicate IsImageExtension(ext: string) {
    var l := Lower(ext);
    l == ".jpg" || l == ".jpeg" || l == ".png"
  }

  /** A name made of any stem and an accepted extension, in any case, passes
      the listing filter. */
  lemma AnyCaseExtensionMakesImage(stem: string, ext: string)
    requires IsImageExtension(ext)
    ensures IsImageName(stem + ext)
  {
    LowerConcat(stem, ext);
    var l := Lower(stem + ext);
    assert l[|stem|..] == Lower(ext);
    assert EndsWith(l, Lower(ext));
  }

  /** An accepted name ends in an accepted extension of four or five characters. */
  lemma ImageNameHasImageExtension(name: string) returns (k: nat)
    requires IsImageName(name)
    ensures k <= |name| && IsImageExtension(name[k..])
  {
    var l := Lower(name);
    k := if EndsWith(l, ".jpeg") then |name| - 5 else |name| - 4;
    LowerSuffix(name, k);
  }

  /** The filter accepts a name exactly when some suffix of it is an accepted
      extension, in any case. */
  lemma ImageNameIffImageExtension(name: string)
    ensures IsImageName(name) <==> exists k :: 0 <= k <= |name| && IsImageExtension(name[k..])
  {
    if IsImageName(name) {
      var k := ImageNameHasImageExtension(name);
    }
    if exists k :: 0 <= k <= |name| && IsImageExtension(name[k..]) {
      var k :| 0 <= k <= |name| && IsImageExtension(name[k..]);
      assert name[..k] + name[k..] == name;
      AnyCaseExtensionMakesImage(name[..k], name[k..]);
    }
  }

  /** Upper-case and capitalised extensions are accepted too: the filter
      compares the lower-cased name. */
  lemma UpperCaseExtensionsAccepted(stem: string)
    ensures IsImageName(stem + ".JPG") && IsImageName(stem + ".Jpeg") && IsImageName(stem + ".PNG")
  {
    assert Lower(".JPG") == ".jpg" by {
      assert forall i :: 0 <= i < 4 ==> Lower(".JPG")[i] == ".jpg"[i];
    }
    assert Lower(".Jpeg") == ".jpeg" by {
      assert forall i :: 0 <= i < 5 ==> Lower(".Jpeg")[i] == ".jpeg"[i];
    }
    assert Lower(".PNG") == ".png" by {
      assert forall i :: 0 <= i < 4 ==> Lower(".PNG")[i] == ".png"[i];
    }
    AnyCaseExtensionMakesImage(stem, ".JPG");
    AnyCaseExtensionMakesImage(stem, ".Jpeg");
    AnyCaseExtensionMakesImage(stem, ".PNG");
  }

  /** A name made of any stem and one of the three lower-case extensions passes
      the listing filter. */
  lemma ExtensionMakesImage(stem: string, ext: string)
    requires ext == ".jpg" || ext == ".jpeg" || ext == ".png"
    ensures IsImageName(stem + ext)
  {
    assert Lower(ext) == ext by {
      if ext == ".jpg" {
        LowerWithoutCapitals(".jpg");
      } else if ext == ".jpeg" {
        LowerWithoutCapitals(".jpeg");
      } else {
        LowerWithoutCapitals(".png");
      }
    }
    AnyCaseExtensionMakesImage(stem, ext);
  }

  /** The image written for any key passes the listing filter. */
  lemma ImageFileNameIsImage(key: string)
    ensures IsImageName(ImageFileName(key))
  {
    ExtensionMakesImage(key, ".jpg");
  }

  /** The description written for any key never passes the listing filter. */
  lemma DescriptionFileNameNeverImage(key: string)
    ensures !IsImageName(DescriptionFileName(key))
  {
    LowerWithoutCapitals(".txt");
    LowerConcat(key, ".txt");
    var l := Lower(DescriptionFileName(key));
    assert l[|key|..] == ".txt";
    TextNameNeverImage(DescriptionFileName(key));
  }

  /** The list comprehension that keeps the image entries of a listing, in order. */
  function FilterImages(names: seq<string>): (r: seq<string>)
    ensures |r| <= |names|
    ensures forall x :: x in r <==> x in names && IsImageName(x)
  {
    if names == [] then []
    else (if IsImageName(names[0]) then [names[0]] else []) + FilterImages(names[1..])
  }

  /** The filter works entry by entry: filtering a concatenation concatenates
      the filtered parts, so relative order is preserved. */
  lemma {:induction false} FilterImagesAppend(a: seq<string>, b: seq<string>)
    ensures FilterImages(a + b) == FilterImages(a) + FilterImages(b)
  {
    if a != [] {
      assert (a + b)[1..] == a[1..] + b;
      FilterImagesAppend(a[1..], b);
    } else {
      assert a + b == b;
    }
  }

  /** Every image entry of the listing is kept as often as it occurs. */
  lemma {:induction false} FilterImagesKeepsEveryImage(names: seq<string>, x: string)
    requires IsImageName(x)
    ensures multiset(FilterImages(names))[x] == multiset(names)[x]
  {
    if names != [] {
      FilterImagesKeepsEveryImage(names[1..], x);
      assert names == [names[0]] + names[1..];
    }
  }

  /** Filtering an already filtered listing changes nothing. */
  lemma {:induction false} FilterImagesIdempotent(names: seq<string>)
    ensures FilterImages(FilterImages(names)) == FilterImages(names)
  {
    if names != [] {
      FilterImagesIdempotent(names[1..]);
      var head := if IsImageName(names[0]) then [names[0]] else [];
      FilterImagesAppend(head, FilterImages(names[1..]));
    }
  }

  /** A description file written at upload never shows up among the images. */
  lemma FilterImagesDropsDescriptions(names: seq<string>, key: string)
    ensures DescriptionFileName(key) !in FilterImages(names)
  {
    DescriptionFileNameNeverImage(key);
  }

  // ---------------------------------------------------------------------------
  // Base name and description lookup
  // ---------------------------------------------------------------------------

  /** img_name.rsplit(".", 1)[0]: the name without its last extension. */
  function BaseName(name: string): (base: string)
    ensures '.' !in name ==> base == name
    ensures '.' in name ==>
      && |base| < |name| && name == base + "." + name[|base| + 1..]
      && '.' !in name[|base| + 1..]
  {
    var r := RSplitOnceHead(name, '.');
    assert '.' in name ==> name == r + "." + name[|r| + 1..];
    r
  }

  /** The raw-content URL where the description of image name is looked up. */
  function DescriptionUrl(cfg: Config, name: string): (u: string)
    ensures |u| == |RawPrefix(cfg)| + |BaseName(name)| + 4
    ensures u[..|RawPrefix(cfg)|] == RawPrefix(cfg)
    ensures u[|RawPrefix(cfg)|..] == BaseName(name) + ".txt"
  {
    RawUrl(cfg, BaseName(name) + ".txt")
  }

  /** Removing the extension of a stored image gives back its key exactly, even
      when the key itself holds dots or underscores. */
  lemma BaseNameOfImageFileName(key: string)
    ensures BaseName(ImageFileName(key)) == key
  {
    assert ImageFileName(key) == key + ['.'] + "jpg";
    RSplitOnceHeadOfJoin(key, '.', "jpg");
  }

  /** Only the last extension is removed. */
  lemma BaseNameStripsLastExtensionOnly()
    ensures BaseName("a.b.png") == "a.b"
  {
    assert "a.b.png" == "a.b" + ['.'] + "png";
    RSplitOnceHeadOfJoin("a.b", '.', "png");
  }

  /** The description looked up for a stored image is the very description file
      written with it at upload. */
  lemma DescriptionUrlRoundTrip(cfg: Config, key: string)
    ensures DescriptionUrl(cfg, ImageFileName(key)) == RawUrl(cfg, DescriptionFileName(key))
  {
    BaseNameOfImageFileName(key);
  }

  /** An image URL and its description URL share the raw-content directory and
      differ only in their last segment. */
  lemma ImageAndDescriptionUrlsShareDirectory(cfg: Config, name: string)
    ensures var p := RawPrefix(cfg);
      && RawUrl(cfg, name)[..|p|] == p && RawUrl(cfg, name)[|p|..] == name
      && DescriptionUrl(cfg, name)[..|p|] == p
      && DescriptionUrl(cfg, name)[|p|..] == BaseName(name) + ".txt"
  {
  }
}
