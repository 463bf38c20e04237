/**
 * The write side of main.py: upload_to_github builds one content-write request,
 * handle_upload decides success by the status code, upload_description stores
 * the text beside the image, and the two upload tabs issue these writes for a
 * single image or for a batch.
 */
module Uploader {
  import opened Wrappers
  import opened Naming
  import opened Http

  newtype byte = x: int | 0 <= x < 256

  /** What a write stores: the image file's bytes, or the description text
      (which main.py encodes as UTF-8 before sending). */
  datatype Payload = ImageBytes(bytes: seq<byte>) | DescriptionText(text: string)

  /** One file write of the protocol: which file, with what content. */
  datatype Write = Write(fileName: string, content: Payload)

  /** The PUT that upload_to_github sends: URL, authorization header, and the
      JSON body's message, content and branch. */
  datatype PutRequest = PutRequest(
    url: string, authorization: string, message: string, content: Payload, branch: string)

  /** Where the repository-contents API lives. */
  const ApiHost := "https://api.github.com/repos/"

  /** The contents-API prefix under which every file of the directory is written. */
  function ContentsPrefix(cfg: Config): (p: string)
    ensures |p| > |ApiHost| + |cfg.repo| && p[..|ApiHost|] == ApiHost
    ensures p[|ApiHost|..|ApiHost| + |cfg.repo|] == cfg.repo && p[|p| - 1] == '/'
    ensures p[|ApiHost| + |cfg.repo|..] == "/contents/" + cfg.path + "/"
  {
    ApiHost + cfg.repo + "/contents/" + cfg.path + "/"
  }

  /** upload_to_github(file_name, file_content): the request for one write. */
  function UploadRequest(cfg: Config, w: Write): (r: PutRequest)
    ensures |r.url| == |ContentsPrefix(cfg)| + |w.fileName|
    ensures r.url[..|ContentsPrefix(cfg)|] == ContentsPrefix(cfg)
    ensures r.url[|ContentsPrefix(cfg)|..] == w.fileName
    ensures |r.message| == |w.fileName| + 4 && r.message[..4] == "Add " && r.message[4..] == w.fileName
    ensures r.authorization == "token " + cfg.token
    ensures r.content == w.content && r.branch == cfg.branch
  {
    PutRequest(ContentsPrefix(cfg) + w.fileName, "token " + cfg.token,
               CommitMessage(w.fileName), w.content, cfg.branch)
  }

  /** What the PUT for write w comes to: the response requests.put returned,
      or the exception it raised. */
  function Answer(cfg: Config, respond: PutRequest -> CallOutcome, w: Write): CallOutcome {
    respond(UploadRequest(cfg, w))
  }

  /** Two writes go to the same URL exactly when they name the same file. */
  lemma UploadRequestUrlInjective(cfg: Config, v: Write, w: Write)
    ensures UploadRequest(cfg, v).url == UploadRequest(cfg, w).url <==> v.fileName == w.fileName
  {
    var p := ContentsPrefix(cfg);
    if UploadRequest(cfg, v).url == UploadRequest(cfg, w).url {
      assert v.fileName == UploadRequest(cfg, v).url[|p|..];
    }
  }

  /** What handle_upload reports for one image. */
  datatype UploadOutcome =
    | Uploaded(fileName: string, url: string)
    | UploadFailed(fileName: string, status: int, body: string)

  /** handle_upload: only 201 (created) is success, with the raw-content URL to
      show; every other status, 200 (updated) included, is a failure reported
      with its status code and response text. */
  function HandleUpload(cfg: Config, fileName: string, response: HttpResponse): (o: UploadOutcome)
    ensures o.fileName == fileName
    ensures o.Uploaded? <==> response.status == 201
    ensures o.Uploaded? ==> o.url == RawUrl(cfg, fileName)
    ensures o.UploadFailed? ==> o.status == response.status && o.body == response.text
  {
    if response.status == 201 then Uploaded(fileName, RawUrl(cfg, fileName))
    else UploadFailed(fileName, response.status, response.text)
  }

  // ---------------------------------------------------------------------------
  // The writes of one submission
  // ---------------------------------------------------------------------------

  /** One uploaded image and the description typed for it. */
  datatype Item = Item(image: seq<byte>, description: string)

  /** The two writes for the item at index: its image under key.jpg, then its
      description under key.txt. */
  function ItemWrites(timestamp: string, index: nat, item: Item): (ws: seq<Write>)
    ensures |ws| == 2
    ensures ws[0].content == ImageBytes(item.image) && ws[1].content == DescriptionText(item.description)
  {
    var key := Key(timestamp, index);
    [Write(ImageFileName(key), ImageBytes(item.image)),
     Write(DescriptionFileName(key), DescriptionText(item.description))]
  }

  /** The two writes of an item are paired by name alone: the image's base
      name is the item's key, and the description is stored under that base
      name with ".txt", the name browsing looks up. */
  lemma ItemWritesPaired(timestamp: string, index: nat, item: Item)
    ensures var ws := ItemWrites(timestamp, index, item);
      && BaseName(ws[0].fileName) == Key(timestamp, index)
      && ws[1].fileName == BaseName(ws[0].fileName) + ".txt"
  {
    BaseNameOfImageFileName(Key(timestamp, index));
  }

  /** The writes of a batch, item by item in index order; clock[i] is the
      timestamp read when item i is reached. */
  function BatchWrites(clock: seq<string>, items: seq<Item>): (ws: seq<Write>)
    requires |clock| == |items|
    ensures |ws| == 2 * |items|
    decreases |items|
  {
    if items == [] then []
    else
      var n := |items| - 1;
      BatchWrites(clock[..n], items[..n]) + ItemWrites(clock[n], n, items[n])
  }

  /** Position 2i of a batch writes item i's image and position 2i+1 its
      description, whatever the description is (the empty text included). */
  lemma {:induction false} BatchWritesAt(clock: seq<string>, items: seq<Item>, i: nat)
    requires |clock| == |items| && i < |items|
    ensures var key := Key(clock[i], i);
      && BatchWrites(clock, items)[2 * i] == Write(ImageFileName(key), ImageBytes(items[i].image))
      && BatchWrites(clock, items)[2 * i + 1]
         == Write(DescriptionFileName(key), DescriptionText(items[i].description))
    decreases |items|
  {
    var n := |items| - 1;
    if i < n {
      BatchWritesAt(clock[..n], items[..n], i);
    }
  }

  /** The file written at slot 0 (image) or 1 (description) of an item. */
  function SlotFile(key: string, slot: nat): string {
    if slot == 0 then ImageFileName(key) else DescriptionFileName(key)
  }

  /** Write p of a batch is slot p % 2 of item p / 2. */
  lemma BatchWriteFile(clock: seq<string>, items: seq<Item>, p: nat)
    requires |clock| == |items| && p < 2 * |items|
    ensures BatchWrites(clock, items)[p].fileName == SlotFile(Key(clock[p / 2], p / 2), p % 2)
  {
    var i := p / 2;
    BatchWritesAt(clock, items, i);
    if p % 2 == 0 {
      assert p == 2 * i;
    } else {
      assert p == 2 * i + 1;
    }
  }

  /** Different keys, or different slots of one key, name different files. */
  lemma SlotFilesDiffer(k1: string, s1: nat, k2: string, s2: nat)
    requires s1 < 2 && s2 < 2 && (k1 != k2 || s1 != s2)
    ensures SlotFile(k1, s1) != SlotFile(k2, s2)
  {
    ImageFileNameInjective(k1, k2);
    DescriptionFileNameInjective(k1, k2);
    ImageNeverDescription(k1, k2);
    ImageNeverDescription(k2, k1);
  }

  /** Whatever the clock reads for each item, no two writes of a batch touch
      the same file: nothing written by the batch is overwritten by the batch. */
  lemma BatchWritesDistinctFiles(clock: seq<string>, items: seq<Item>)
    requires |clock| == |items|
    ensures var ws := BatchWrites(clock, items);
      forall p, q :: 0 <= p < q < |ws| ==> ws[p].fileName != ws[q].fileName
  {
    var ws := BatchWrites(clock, items);
    forall p, q | 0 <= p < q < |ws| ensures ws[p].fileName != ws[q].fileName {
      var i, j := p / 2, q / 2;
      var si, sj := p % 2, q % 2;
      BatchWriteFile(clock, items, p);
      BatchWriteFile(clock, items, q);
      var ki, kj := Key(clock[i], i), Key(clock[j], j);
      if i != j {
        DistinctIndicesDistinctKeys(clock[i], i, clock[j], j);
      }
      SlotFilesDiffer(ki, si, kj, sj);
    }
  }

  /** Taking a prefix that reaches into the second part of a concatenation. */
  lemma TakeOfAppend<T>(a: seq<T>, b: seq<T>, m: nat)
    requires m <= |b|
    ensures (a + b)[..|a| + m] == a + b[..m]
  {
    assert forall p :: 0 <= p < |a| + m ==> (a + b)[..|a| + m][p] == (a + b[..m])[p];
  }

  /** The first 2k writes of a batch are the writes of its first k items. */
  lemma {:induction false} BatchWritesTake(clock: seq<string>, items: seq<Item>, k: nat)
    requires |clock| == |items| && k <= |items|
    ensures BatchWrites(clock, items)[..2 * k] == BatchWrites(clock[..k], items[..k])
    decreases |items|
  {
    if k < |items| {
      var n := |items| - 1;
      var front := BatchWrites(clock[..n], items[..n]);
      TakeOfAppend(front[..2 * k], front[2 * k..] + ItemWrites(clock[n], n, items[n]), 0);
      assert BatchWrites(clock, items)[..2 * k] == front[..2 * k] by {
        assert front + ItemWrites(clock[n], n, items[n])
            == front[..2 * k] + (front[2 * k..] + ItemWrites(clock[n], n, items[n]));
      }
      BatchWritesTake(clock[..n], items[..n], k);
      assert clock[..n][..k] == clock[..k] && items[..n][..k] == items[..k];
    } else {
      assert clock[..k] == clock && items[..k] == items;
    }
  }

  /** The first m writes of item i follow the writes of the items before it. */
  lemma BatchWritesPrefix(clock: seq<string>, items: seq<Item>, i: nat, m: nat)
    requires |clock| == |items| && i < |items| && m <= 2
    ensures BatchWrites(clock, items)[..2 * i] + ItemWrites(clock[i], i, items[i])[..m]
         == BatchWrites(clock, items)[..2 * i + m]
  {
    var all := BatchWrites(clock, items);
    var before, item := BatchWrites(clock[..i], items[..i]), ItemWrites(clock[i], i, items[i]);
    BatchWritesTake(clock, items, i);
    BatchWritesTake(clock, items, i + 1);
    assert clock[..i + 1][..i] == clock[..i] && items[..i + 1][..i] == items[..i];
    assert all[..2 * i + 2] == before + item;
    TakeOfAppend(before, item, m);
    assert all[..2 * i + m] == all[..2 * i + 2][..2 * i + m];
  }

  /** The writes of a run stay a prefix of the batch as item idx attempts its
      own, and complete the first idx + 1 items when it attempts both. */
  lemma BatchRunGrows(
    clock: seq<string>, items: seq<Item>, idx: nat, ws: seq<Write>, more: seq<Write>, ws2: seq<Write>)
    requires |clock| == |items| && idx < |items|
    requires ws == BatchWrites(clock, items)[..2 * idx]
    requires 1 <= |more| <= 2 && more == ItemWrites(clock[idx], idx, items[idx])[..|more|]
    requires ws2 == ws + more
    ensures |ws2| <= 2 * |items| && ws2 == BatchWrites(clock, items)[..|ws2|]
    ensures |more| == 2 ==> ws2 == BatchWrites(clock, items)[..2 * (idx + 1)]
  {
    BatchWritesPrefix(clock, items, idx, |more|);
  }

  /** The four lines shared by both upload tabs (main.py:78-82, 97-101): read
      the clock, upload the image and report its outcome, then upload the
      description, which is written whatever became of the image. An exception
      raised by a PUT leaves main() at once: the writes attempted are a prefix
      of the item's two writes and the one that raised is the last of them. */
  method SubmitItem(cfg: Config, now: string, index: nat, item: Item, respond: PutRequest -> CallOutcome)
    returns (writes: seq<Write>, outcome: Option<UploadOutcome>, raised: bool)
    ensures 1 <= |writes| <= 2 && writes == ItemWrites(now, index, item)[..|writes|]
    ensures |writes| == 2 ==> Answer(cfg, respond, writes[0]).Responded?
    ensures raised <==> Answer(cfg, respond, writes[|writes| - 1]).Raised?
    ensures !raised ==> |writes| == 2
    ensures outcome.Some? <==> |writes| == 2
    ensures outcome.Some? ==>
      outcome.value == HandleUpload(cfg, writes[0].fileName, Answer(cfg, respond, writes[0]).response)
  {
    var baseName := Key(now, index);
    var image := Write(ImageFileName(baseName), ImageBytes(item.image));
    var description := Write(DescriptionFileName(baseName), DescriptionText(item.description));
    writes, outcome := [image], None;
    var imageResult := respond(UploadRequest(cfg, image));
    if imageResult.Raised? {
      raised := true;
      return;
    }
    outcome := Some(HandleUpload(cfg, image.fileName, imageResult.response));
    writes := writes + [description];
    raised := respond(UploadRequest(cfg, description)).Raised?;
  }

  /** Every write of ws got a response to its PUT. */
  ghost predicate Answered(cfg: Config, respond: PutRequest -> CallOutcome, ws: seq<Write>) {
    forall p :: 0 <= p < |ws| ==> Answer(cfg, respond, ws[p]).Responded?
  }

  /** Every write of ws but the last got a response: an exception ends a run. */
  ghost predicate OnlyLastMayRaise(cfg: Config, respond: PutRequest -> CallOutcome, ws: seq<Write>) {
    forall p :: 0 <= p < |ws| - 1 ==> Answer(cfg, respond, ws[p]).Responded?
  }

  /** outcomes[i] is what handle_upload reported for the image write ws[2i],
      whose PUT got a response. */
  ghost predicate ReportsImages(
    cfg: Config, respond: PutRequest -> CallOutcome, ws: seq<Write>, outcomes: seq<UploadOutcome>)
  {
    forall i :: 0 <= i < |outcomes| ==>
      && 2 * i < |ws|
      && Answer(cfg, respond, ws[2 * i]).Responded?
      && outcomes[i] == HandleUpload(cfg, ws[2 * i].fileName, Answer(cfg, respond, ws[2 * i]).response)
  }

  /** One step of a run: the writes more, which one item attempted, follow a
      run ws in which every write was answered. In the longer run ws2 only the
      new last write may have raised, outcomes2 reports each answered image, and
      when the item did not raise, every write of ws2 was answered. */
  lemma RunStep(
    cfg: Config, respond: PutRequest -> CallOutcome,
    ws: seq<Write>, outcomes: seq<UploadOutcome>, more: seq<Write>, outcome: Option<UploadOutcome>,
    itemRaised: bool, ws2: seq<Write>, outcomes2: seq<UploadOutcome>)
    requires |ws| == 2 * |outcomes| && Answered(cfg, respond, ws) && ReportsImages(cfg, respond, ws, outcomes)
    requires 1 <= |more| <= 2 && (|more| == 2 ==> Answer(cfg, respond, more[0]).Responded?)
    requires itemRaised <==> Answer(cfg, respond, more[|more| - 1]).Raised?
    requires !itemRaised ==> |more| == 2
    requires outcome.Some? <==> |more| == 2
    requires outcome.Some? ==>
      outcome.value == HandleUpload(cfg, more[0].fileName, Answer(cfg, respond, more[0]).response)
    requires ws2 == ws + more
    requires outcomes2 == if outcome.Some? then outcomes + [outcome.value] else outcomes
    ensures OnlyLastMayRaise(cfg, respond, ws2) && ReportsImages(cfg, respond, ws2, outcomes2)
    ensures itemRaised <==> ws2 != [] && Answer(cfg, respond, ws2[|ws2| - 1]).Raised?
    ensures |ws2| == 2 * |outcomes2| || |ws2| == 2 * |outcomes2| + 1
    ensures !itemRaised ==> |outcomes2| == |outcomes| + 1 && Answered(cfg, respond, ws2)
  {
    assert ws2[|ws2| - 1] == more[|more| - 1];
    forall p | 0 <= p < |ws2| - 1
      ensures Answer(cfg, respond, ws2[p]).Responded?
    {
      if p < |ws| {
        assert ws2[p] == ws[p];
      } else {
        assert ws2[p] == more[0];
      }
    }
    forall i | 0 <= i < |outcomes2|
      ensures 2 * i < |ws2| && Answer(cfg, respond, ws2[2 * i]).Responded?
      ensures outcomes2[i] == HandleUpload(cfg, ws2[2 * i].fileName, Answer(cfg, respond, ws2[2 * i]).response)
    {
      if i < |outcomes| {
        assert ws2[2 * i] == ws[2 * i] && outcomes2[i] == outcomes[i];
      } else {
        assert ws2[2 * i] == more[0] && outcomes2[i] == outcome.value;
      }
    }
  }

  /** The batch tab (main.py:95-101): the items in index order, item i read
      with clock[i]. The writes attempted are a prefix of the full batch; only
      the last of them can have raised, and when none did the whole batch was
      written; every image whose PUT was answered has its reported outcome. */
  method SubmitBatch(cfg: Config, clock: seq<string>, items: seq<Item>, respond: PutRequest -> CallOutcome)
    returns (writes: seq<Write>, outcomes: seq<UploadOutcome>, raised: bool)
    requires |clock| == |items|
    ensures |writes| <= 2 * |items| && writes == BatchWrites(clock, items)[..|writes|]
    ensures OnlyLastMayRaise(cfg, respond, writes) && ReportsImages(cfg, respond, writes, outcomes)
    ensures raised <==> writes != [] && Answer(cfg, respond, writes[|writes| - 1]).Raised?
    ensures |writes| == 2 * |outcomes| || |writes| == 2 * |outcomes| + 1
    ensures !raised ==> |writes| == 2 * |items|
  {
    writes, outcomes, raised := [], [], false;
    var idx := 0;
    while idx < |items|
      invariant 0 <= idx <= |items|
      invariant writes == BatchWrites(clock, items)[..2 * idx] && |outcomes| == idx
      invariant Answered(cfg, respond, writes) && ReportsImages(cfg, respond, writes, outcomes)
    {
      var attempted, outcome, itemRaised := SubmitItem(cfg, clock[idx], idx, items[idx], respond);
      ghost var before, reported := writes, outcomes;
      writes := writes + attempted;
      if outcome.Some? {
        outcomes := outcomes + [outcome.value];
      }
      BatchRunGrows(clock, items, idx, before, attempted, writes);
      RunStep(cfg, respond, before, reported, attempted, outcome, itemRaised, writes, outcomes);
      if itemRaised {
        raised := true;
        return;
      }
      idx := idx + 1;
    }
    assert BatchWrites(clock, items)[..2 * idx] == BatchWrites(clock, items);
  }

  /** The single-image tab (main.py:78-82): the item gets index 0, so a single
      upload attempts exactly what a batch of one would. */
  method SubmitSingle(cfg: Config, now: string, item: Item, respond: PutRequest -> CallOutcome)
    returns (writes: seq<Write>, outcome: Option<UploadOutcome>, raised: bool)
    ensures 1 <= |writes| <= 2 && writes == BatchWrites([now], [item])[..|writes|]
    ensures |writes| == 2 ==> Answer(cfg, respond, writes[0]).Responded?
    ensures raised <==> Answer(cfg, respond, writes[|writes| - 1]).Raised?
    ensures !raised ==> |writes| == 2
    ensures outcome.Some? <==> |writes| == 2
    ensures outcome.Some? ==>
      outcome.value == HandleUpload(cfg, ImageFileName(Key(now, 0)), Answer(cfg, respond, writes[0]).response)
  {
    writes, outcome, raised := SubmitItem(cfg, now, 0, item, respond);
    assert BatchWrites([now], [item]) == BatchWrites([], []) + ItemWrites(now, 0, item);
  }

  /** Two single uploads target the same two files exactly when their
      timestamps are equal; what the second PUT then does to those files is
      the repository's answer. */
  lemma SingleUploadsCollideIffSameSecond(ts1: string, a: Item, ts2: string, b: Item)
    ensures var w1, w2 := BatchWrites([ts1], [a]), BatchWrites([ts2], [b]);
      && (w1[0].fileName == w2[0].fileName <==> ts1 == ts2)
      && (w1[1].fileName == w2[1].fileName <==> ts1 == ts2)
  {
    BatchWritesAt([ts1], [a], 0);
    BatchWritesAt([ts2], [b], 0);
    KeyInjective(ts1, 0, ts2, 0);
    ImageFileNameInjective(Key(ts1, 0), Key(ts2, 0));
    DescriptionFileNameInjective(Key(ts1, 0), Key(ts2, 0));
  }
}
