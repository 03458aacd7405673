/** One run of `main` (bot.py:59-82) as the sequence of HTTP requests it issues and
    the exception that ends it, if any. The coin of bot.py:66, the two
    `random.choice` draws, the text file, the image directory, whether the chosen
    image opens and the media endpoint's answer are all parameters. */
module Bot {
  import opened Wrappers
  import opened PyStr
  import opened Content
  import opened Mastodon

  /** A request sent to the instance: a media upload of the file at `path` under the
      file name `fileName`, or a status post carrying `form`. */
  datatype Request = Upload(path: string, fileName: string) | Post(form: Form)

  /** The exception that ends a run: `get_random_text` raises, the chosen image
      cannot be opened (bot.py:31), or the upload's answer cannot be read
      (bot.py:36). */
  datatype Crash = TextCrash(textError: TextError) | ImageUnreadable | UploadCrash(uploadError: UploadError)

  /** The requests a run issued, in order, and the exception that ended it. */
  datatype RunOutcome = RunOutcome(requests: seq<Request>, crash: Option<Crash>)

  /** The inputs `main` draws from the outside world. */
  datatype World = World(
    textFile: Option<string>,          // decoded contents of content/text.txt, None if unreadable
    listing: Option<seq<string>>,      // entries of content/images, None if absent
    textPick: nat,                     // the draw of random.choice over the paragraphs
    imagePick: nat,                    // the draw of random.choice over the images
    imageOpens: bool,                  // whether open(image_path, "rb") succeeds
    upload: UploadResponse)            // the media endpoint's answer to the upload

  /** `upload_media(path)` followed by `post_status(text or "", media_id)` when the
      id is truthy (bot.py:78-80). */
  function UploadAndPost(path: string, text: string, w: World): (o: RunOutcome)
    ensures o.crash.Some? <==> !w.imageOpens || MediaId(w.upload).Failure?
    ensures |o.requests| <= 2
    ensures forall i :: 0 <= i < |o.requests| && o.requests[i].Upload? ==> i == 0
    ensures forall i :: 0 <= i < |o.requests| && o.requests[i].Post? ==> i == |o.requests| - 1 && o.crash.None?
  {
    if !w.imageOpens then RunOutcome([], Some(ImageUnreadable))
    else
      var upload := Upload(path, BaseName(path));
      match MediaId(w.upload)
      case Failure(e) => RunOutcome([upload], Some(UploadCrash(e)))
      case Success(mediaId) =>
        RunOutcome([upload] + if Truthy(mediaId) then [Post(StatusForm(if text != "" then text else "", mediaId))] else [], None)
  }

  /** `main()`: `postText` is the outcome of `random.choice([True, False])`. */
  function Run(postText: bool, w: World): (o: RunOutcome)
    ensures o.crash.Some? <==>
      || RandomText(w.textFile, w.textPick).Failure?
      || (!postText && RandomImage(w.listing, w.imagePick).Some?
          && (!w.imageOpens || MediaId(w.upload).Failure?))
    ensures |o.requests| <= 2
    ensures forall i :: 0 <= i < |o.requests| && o.requests[i].Upload? ==> i == 0
    ensures forall i :: 0 <= i < |o.requests| && o.requests[i].Post? ==> i == |o.requests| - 1 && o.crash.None?
  {
    if postText then
      match RandomText(w.textFile, w.textPick)
      case Failure(e) => RunOutcome([], Some(TextCrash(e)))
      case Success(text) =>
        RunOutcome(if text != "" then [Post(StatusForm(text, None))] else [], None)
    else
      var imagePath := RandomImage(w.listing, w.imagePick);
      match RandomText(w.textFile, w.textPick)
      case Failure(e) => RunOutcome([], Some(TextCrash(e)))
      case Success(text) =>
        if imagePath.Some? && imagePath.value != "" then UploadAndPost(imagePath.value, text, w)
        else RunOutcome([], None)
  }

  /** Text branch: nothing is uploaded and the chosen paragraph is posted verbatim,
      without media, exactly once. */
  lemma TextBranch(w: World)
    requires RandomText(w.textFile, w.textPick).Success?
    ensures var text := RandomText(w.textFile, w.textPick).value;
      Run(true, w) == RunOutcome([Post(StatusForm(text, None))], None)
  {
  }

  /** Image branch without a usable image: no request and no exception. */
  lemma ImageBranchNoImage(w: World)
    requires RandomText(w.textFile, w.textPick).Success?
    requires RandomImage(w.listing, w.imagePick).None?
    ensures Run(false, w) == RunOutcome([], None)
  {
  }

  /** Image branch with an image that opens: the image is uploaded first; a post
      follows exactly when the upload answered 200 with an object whose id is
      non-empty, and it carries the chosen paragraph and that one id. */
  lemma ImageBranchWithImage(w: World)
    requires RandomText(w.textFile, w.textPick).Success?
    requires RandomImage(w.listing, w.imagePick).Some?
    ensures !w.imageOpens ==> Run(false, w) == RunOutcome([], Some(ImageUnreadable))
    ensures var o := Run(false, w);
      var text := RandomText(w.textFile, w.textPick).value;
      var path := RandomImage(w.listing, w.imagePick).value;
      w.imageOpens ==>
        && |o.requests| >= 1
        && o.requests[0] == Upload(path, BaseName(path))
        && (|o.requests| == 2 <==> w.upload.status == 200 && w.upload.body.JsonObject? && Truthy(w.upload.body.id))
        && (|o.requests| == 2 ==> o.requests[1] == Post(StatusForm(text, w.upload.body.id)))
  {
  }

  /** No post attaches media unless an upload comes right before it in the same run
      and the media endpoint answered 200 with exactly the attached id. */
  lemma PostNeedsUpload(postText: bool, w: World)
    ensures var o := Run(postText, w);
      forall i :: 0 <= i < |o.requests| && o.requests[i].Post? && "media_ids[]" in o.requests[i].form ==>
        && i > 0
        && o.requests[i - 1].Upload?
        && w.upload.status == 200
        && w.upload.body.JsonObject?
        && Truthy(w.upload.body.id)
        && o.requests[i].form["media_ids[]"] == Items([w.upload.body.id.value])
  {
  }

  /** Whatever the branch, a posted status is a non-empty paragraph of the text file:
      the fallback to an empty caption at bot.py:80 is never taken. */
  lemma PostedTextIsParagraph(postText: bool, w: World)
    ensures var o := Run(postText, w);
      forall i :: 0 <= i < |o.requests| && o.requests[i].Post? ==>
        && w.textFile.Some?
        && "status" in o.requests[i].form
        && o.requests[i].form["status"].Str?
        && o.requests[i].form["status"].s in Paragraphs(UniversalNewlines(w.textFile.value))
        && o.requests[i].form["status"].s != ""
  {
  }

  /** The uploaded file is a qualifying entry of the image directory, sent under its
      own name. Entries listed by `os.listdir` hold no slash. */
  lemma UploadIsListedImage(postText: bool, w: World)
    requires w.listing.Some? ==> forall f :: f in w.listing.value ==> '/' !in f
    ensures var o := Run(postText, w);
      forall i :: 0 <= i < |o.requests| && o.requests[i].Upload? ==>
        && w.listing.Some?
        && o.requests[i].fileName in w.listing.value
        && IsImageName(o.requests[i].fileName)
        && o.requests[i].path == JoinPath(ImageDir, o.requests[i].fileName)
  {
    var image := RandomImage(w.listing, w.imagePick);
    if !postText && image.Some? {
      var f :| f in w.listing.value && IsImageName(f) && image.value == JoinPath(ImageDir, f);
      assert BaseName(image.value) == f;
    }
  }

  /** A run sends nothing at all when the text file is unreadable or whitespace only,
      even in the image branch with an image available. */
  lemma NoTextNoRequests(postText: bool, w: World)
    requires w.textFile.None? || AllSpace(w.textFile.value)
    ensures Run(postText, w).requests == []
    ensures Run(postText, w).crash.Some? && Run(postText, w).crash.value.TextCrash?
  {
  }
}
