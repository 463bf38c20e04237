# comesys-pictures: the naming and pairing protocol, in Dafny

The application stores uploaded images, each with an optional free-text
description, as files in one directory of a GitHub repository. It later lists
that directory and shows every image with its description. The repository has
no record linking a description to its image. The link is a naming convention:

- every upload gets a key `"{timestamp}_{index}"`;
- the image is written to `key.jpg` and the description to `key.txt`;
- when browsing, the directory listing is filtered down to images;
- each image's base name (its name minus the last extension) gives the
  `base.txt` file its description is fetched from.

This project models that protocol and proves that it holds together:

- the key written at upload is recovered exactly at browse time;
- distinct batch indices give distinct keys;
- description files never show up as images;
- a failed description fetch never drops an image.

Modules, one file each:

- `Wrappers` (wrappers.dfy): `Option`.
- `PyStr` (pystr.dfy): the Python built-ins the protocol relies on: `str.lower`,
  `str.endswith`, `str.strip`, `str.rsplit(".", 1)[0]` and `str(int)`.
- `Naming` (naming.dfy): configuration, keys, file names, raw-content URLs,
  commit message, listing filter, base name.
- `Http` (http.dfy): what an HTTP call returns, as plain values.
- `Uploader` (uploader.dfy): `upload_to_github`, `handle_upload`,
  `upload_description`, and the single-image and batch upload tabs. The batch
  tab is a method with a loop.
- `Catalog` (catalog.dfy): `fetch_github_image_list` and the browse tab. The
  browse tab is a method with a loop.

The environment is passed in as parameters:

- the clock: one formatted timestamp per upload;
- the outcome of a write: a function from the PUT request to a response or a
  raised exception;
- the outcome of the listing request: a listing response or a raised
  exception;
- the outcome of each description fetch: a function from the position of the
  image in the browse loop and the URL to a response or a raised exception, so
  every image's GET is a call of its own, even when two images share a base
  name.

An exception from a write or from the listing request is not caught by
main.py. The model stops the run there. An exception from a description
fetch is caught, and only that entry loses its description.

Two behaviours of main.py are easy to miss:

- Images are always stored as `.jpg`, whatever their original format
  (main.py:80, main.py:99). The original extension is never kept.
- The description is always written, even when it is empty (main.py:82,
  main.py:101). It is never optional.

## Model

| member | source | states |
|---|---|---|
| PyStr.LowerChar | main.py:60 | an ASCII capital becomes the lower-case letter 32 code points above it; every other character is left as it is |
| PyStr.Lower | main.py:60 | lower-casing keeps the length and maps each character on its own (ASCII letters only) |
| PyStr.LowerConcat | main.py:60 | lower-casing a concatenation lower-cases each part separately |
| PyStr.LowerSuffix | main.py:60 | lower-casing a suffix gives the same suffix of the lower-cased string |
| PyStr.EndsWith | main.py:60 | a name that ends with a suffix is at least as long and is its own front part followed by that suffix |
| PyStr.StripLeft | main.py:119 | the result is the longest suffix of the input that does not start with whitespace; everything removed is whitespace |
| PyStr.StripRight | main.py:119 | the result is the longest prefix of the input that does not end with whitespace; everything removed is whitespace |
| PyStr.Strip | main.py:119 | the result is a contiguous slice of the input; only whitespace is cut at both ends; the result neither starts nor ends with whitespace |
| PyStr.StripIdempotent | main.py:119 | stripping a stripped text changes nothing |
| PyStr.LastIndexOf | main.py:110 | finds the last occurrence of a character, or reports that there is none |
| PyStr.RSplitOnceHead | main.py:110 | `rsplit(sep, 1)[0]` is the whole string when sep is absent; otherwise it is the prefix before the last sep, with no sep after it |
| PyStr.RSplitOnceHeadOfJoin | main.py:110 | splitting `head + sep + tail` gives back `head` whenever `tail` holds no sep, whatever `head` contains |
| PyStr.NatToString | main.py:98 | `str(idx)` is a non-empty string of decimal digits with no leading zero |
| PyStr.NatToStringRoundTrip | main.py:98 | reading back the digits of `str(n)` gives `n` |
| PyStr.NatToStringInjective | main.py:98 | two numbers have the same decimal spelling iff they are equal |
| Naming.KeyLayout | main.py:97-98 | a key is its timestamp, then `_`, then a string of decimal digits whose value is the index |
| Naming.ImageFileNameLayout | main.py:99 | the image file of a key is the key followed by `.jpg` |
| Naming.DescriptionFileNameLayout | main.py:46 | the description file of a key is the key followed by `.txt` |
| Naming.CommitMessage | main.py:21 | the commit message is `"Add "` followed by the file name |
| Naming.KeyLastUnderscore | main.py:97-98 | the last `_` of a key is the one right after its timestamp, whatever the timestamp holds |
| Naming.KeyInjective | main.py:97-98 | for any two timestamps, two keys are equal iff both the timestamps and the indices are equal |
| Naming.DistinctIndicesDistinctKeys | main.py:96-98 | two batch items with different indices get different keys, whatever the clock read for each |
| Naming.FileNamesDifferOnlyInExtension | main.py:79-82 | the image file and the description file of a key have the same length; they share `key + "."` and differ only in `jpg` versus `txt` |
| Naming.ImageNeverDescription | main.py:79-82 | no image file name equals any description file name |
| Naming.ImageFileNameInjective | main.py:80 | image file names are equal iff their keys are |
| Naming.DescriptionFileNameInjective | main.py:46 | description file names are equal iff their keys are |
| Naming.RawPrefix | main.py:36 | the raw-content directory prefix is `https://raw.githubusercontent.com/`, the repository, then `/`, the branch, `/`, the directory and `/` |
| Naming.RawUrl | main.py:111 | a raw-content URL is the configured directory prefix followed by the file name |
| Naming.RawUrlInjective | main.py:111 | raw-content URLs in one directory are equal iff their file names are |
| Naming.IsImageName | main.py:60 | a name that passes the filter has at least four characters |
| Naming.ImageNameEndsInG | main.py:60 | every name that passes the filter ends in `g` or `G` |
| Naming.TextNameNeverImage | main.py:60 | a name whose lower-cased form ends in `.txt` never passes the filter |
| Naming.ExtensionMakesImage | main.py:60 | any stem followed by `.jpg`, `.jpeg` or `.png` passes the filter |
| Naming.AnyCaseExtensionMakesImage | main.py:60 | any stem followed by an extension that lower-cases to `.jpg`, `.jpeg` or `.png` passes the filter |
| Naming.UpperCaseExtensionsAccepted | main.py:60 | any stem followed by `.JPG`, `.Jpeg` or `.PNG` passes the filter |
| Naming.ImageNameHasImageExtension | main.py:60 | a name that passes the filter ends in an extension that lower-cases to `.jpg`, `.jpeg` or `.png` |
| Naming.ImageNameIffImageExtension | main.py:60 | a name passes the filter iff some suffix of it lower-cases to `.jpg`, `.jpeg` or `.png` |
| Naming.ImageFileNameIsImage | main.py:60 | the image file written for any key passes the filter |
| Naming.DescriptionFileNameNeverImage | main.py:60 | the description file written for any key never passes the filter |
| Naming.FilterImages | main.py:60 | the filter keeps exactly the listing entries whose lower-cased name ends in `.jpg`, `.jpeg` or `.png`, and adds none |
| Naming.FilterImagesAppend | main.py:60 | filtering a concatenation concatenates the filtered parts, so relative order is preserved |
| Naming.FilterImagesKeepsEveryImage | main.py:60 | each image entry is kept exactly as many times as it occurs in the listing |
| Naming.FilterImagesIdempotent | main.py:60 | filtering twice is the same as filtering once |
| Naming.FilterImagesDropsDescriptions | main.py:60 | a description file written at upload is never among the filtered images |
| Naming.BaseName | main.py:110 | a name without `.` is its own base name; otherwise the name is its base name, a `.`, and a last part that holds no `.` |
| Naming.DescriptionUrl | main.py:112 | the description URL is the raw-content directory prefix followed by the image's base name and `.txt` |
| Naming.BaseNameOfImageFileName | main.py:110 | removing the extension of `key.jpg` gives back `key` exactly, even when `key` holds dots or underscores |
| Naming.BaseNameStripsLastExtensionOnly | main.py:110 | only the last extension is removed: `a.b.png` has base name `a.b` |
| Naming.DescriptionUrlRoundTrip | main.py:110-112 | the description URL looked up for `key.jpg` is the raw-content URL of `key.txt`, the file written at upload |
| Naming.ImageAndDescriptionUrlsShareDirectory | main.py:111-112 | the image URL and the description URL share the raw-content directory prefix and differ only in the last segment |
| Uploader.UploadRequest | main.py:13-27 | the PUT targets the contents-API directory followed by the file name; its authorization is `"token "` followed by the token; its message is `"Add " + name`; it carries the content and the configured branch |
| Uploader.UploadRequestUrlInjective | main.py:14 | two writes go to the same URL iff they name the same file |
| Uploader.HandleUpload | main.py:30-42 | the upload is reported as a success iff the status is 201, with the file's raw-content URL; any other status, 200 included, is a failure that carries the status and the response text |
| Uploader.ContentsPrefix | main.py:14 | the contents-API directory prefix is `https://api.github.com/repos/`, the repository, then `/contents/`, the directory and `/` |
| Uploader.ItemWrites | main.py:98-101 | an item issues two writes: its image bytes, then its description text |
| Uploader.ItemWritesPaired | main.py:98-101 | the base name of the image file is the item's key, and the description file is that base name followed by `.txt` |
| Uploader.BatchWrites | main.py:96-101 | a batch of n items issues 2n writes |
| Uploader.BatchWritesAt | main.py:96-101 | write 2i is item i's image at `key_i.jpg` and write 2i+1 is its description at `key_i.txt`, empty text included |
| Uploader.BatchWriteFile | main.py:96-101 | write p of a batch goes to the image file (p even) or the description file (p odd) of item p / 2 |
| Uploader.SlotFilesDiffer | main.py:98-101 | the image and description files of two different keys, or of one key, never coincide |
| Uploader.BatchWritesTake | main.py:96-101 | the first 2k writes of a batch are the writes of its first k items |
| Uploader.BatchWritesPrefix | main.py:96-101 | the first m writes of item i directly follow the writes of the items before it |
| Uploader.BatchRunGrows | main.py:96-101 | the writes attempted stay a prefix of the batch as each item adds its own, and cover the first i + 1 items once item i has made both |
| Uploader.RunStep | main.py:96-101 | after an item's writes, only the new last write may have raised; each answered image has its outcome; when nothing raised, every write was answered |
| Uploader.BatchWritesDistinctFiles | main.py:96-101 | whatever the clock reads for each item, no two writes of one batch touch the same file |
| Uploader.SubmitItem | main.py:78-82 | an item attempts its image write, then its description write only if the image PUT did not raise; only the last write attempted may have raised; the outcome is reported iff the image PUT was answered, and is `handle_upload` of that response |
| Uploader.SubmitBatch | main.py:95-101 | the batch loop attempts a prefix of `BatchWrites`; only its last write may have raised, and then nothing after it is written; with no exception all 2n writes are made, each description whatever the image's status; one `handle_upload` outcome is reported per answered image, in index order |
| Uploader.SubmitSingle | main.py:76-82 | a single upload attempts a prefix of what a batch of one item (index 0) writes; the description is skipped iff the image PUT raised; the image's `handle_upload` outcome is reported iff its PUT was answered |
| Uploader.SingleUploadsCollideIffSameSecond | main.py:78-82 | two single uploads write to the same image file and the same description file iff their timestamps are equal |
| Catalog.FetchImageList | main.py:51-64 | a 200 listing yields exactly its image entries; any other status yields none |
| Catalog.DescriptionOf | main.py:116-121 | a description is present iff the fetch returned status 200, and it is then the stripped response text |
| Catalog.FetchDescription | main.py:116-121 | the try/except around one fetch yields the description that `DescriptionOf` gives for the fetch's outcome, exception included |
| Catalog.EntryFor | main.py:109-121 | an entry shows the image's raw-content URL and looks up the description URL of its base name; its description is present iff its own GET of that URL returned 200, and is then the stripped text |
| Catalog.ShowEntry | main.py:109-123 | one pass of the browse loop yields exactly `EntryFor` of the image name at that position |
| Catalog.ShowEntries | main.py:107-123 | the browse loop yields one entry per image name, in order |
| Catalog.Browse | main.py:104-123 | if the listing request raised, nothing is shown; otherwise browsing yields exactly one entry per filtered image, in listing order, entry i given by `EntryFor` of image i and its own GET, the i-th |
| Catalog.EntryDependsOnlyOnOwnFetch | main.py:108-121 | an entry does not change when any GET other than its own changes, including another image's GET of the same description URL |
| Catalog.BrowseFindsUploadedPair | main.py:108-112 | an uploaded `key.jpg` in a 200 listing is browsed and `key.txt` is not; its entry looks up the URL of `key.txt` and shows what that fetch yields |
| Catalog.ExampleListing | main.py:60 | a listing `k1.png`, `k1.txt`, `k2.jpg` filters to `k1.png`, `k2.jpg` |
| Catalog.ExampleStrip | main.py:119 | `" a cat\n"` strips to `"a cat"` |
| Catalog.BrowseExample | main.py:108-121 | in that listing, `k1.png` shows the stripped text of `k1.txt`, and `k2.jpg`, whose fetch returns 404, shows no description |
| Catalog.SharedBaseNameFetchedTwice | main.py:112-121 | `k.png` and `k.jpg` look up the same `k.txt` URL with separate GETs: when the first raises and the second answers 200, only the second entry has a description |

## Left out

- Streamlit presentation (titles, tabs, file uploaders, buttons, `st.image`, `st.success`, `st.error`, markdown links) is display only.
- The description-collection loop (main.py:90-92) only reads UI text inputs. Each `Uploader.Item` already carries its description.
- The `uploaded_file is not None`, button and `submit_multi` guards are UI events. The upload methods model what happens once a submission is made.
- `requests.put` and `requests.get` are not modelled. Their outcomes are parameters: `respond` for writes, `fetch` for description URLs, and `ListOutcome` for the listing.
- An exception that leaves main() also skips the tabs drawn after it in the same script run. The model covers each tab on its own.
- A 200 listing whose body `response.json()` cannot parse raises in main.py. The model takes the listing's entry names as given.
- The listing request itself (its URL with `?ref=branch` and its headers) is not modelled. Only its status and entry names are.
- Listing entries are modelled by their `"name"` only. A missing `"name"` key, or a non-list JSON body, is not modelled.
- The repository's upsert behaviour, its pagination, and which status it returns for which write belong to GitHub. They are left to the `respond` parameter.
- `base64.b64encode` and the UTF-8 encoding of descriptions are library calls. A write's payload is kept as the image bytes or the description text.
- The `Accept` header is a constant and is not modelled. The request keeps only the `token` authorization value.
- `datetime.now().strftime('%Y%m%d_%H%M%S')` is a clock. Timestamps are inputs and may be any strings; every key lemma holds for any clock.
- Loading secrets (main.py:7-10), and failing when one is missing, is configuration. `Naming.Config` holds the four values.
- Naming.IsImageName: its own contract states only that an accepted name has at least four characters, because a fuller one makes every listing proof costlier; which names it accepts, in both directions and in any case, is stated by `ImageNameIffImageExtension`, with `AnyCaseExtensionMakesImage` and `UpperCaseExtensionsAccepted` for the "if" direction and `ImageNameHasImageExtension` for the "only if" direction.
- PyStr.Lower: folds only ASCII letters, where Python's `str.lower` folds all of Unicode. No non-ASCII character lower-cases to `.`, `j`, `p`, `e`, `g` or `n`, so the image filter accepts the same names either way; only `Lower`'s own result differs on non-ASCII letters.
- The description upload's response is discarded by main.py (main.py:82, main.py:101). The model discards it too.
