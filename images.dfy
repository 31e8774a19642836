/** `preDownloadImages` (server/markdownload.js:224-252): fetch every listed image,
    then either inline it as a data URL or record where it is saved, renaming an
    unknown `.idunno` extension after the response's content type. */
module Images {
  import opened JsStrings
  import opened JsValues
  import opened Options

  /** A fetched image: its `content-type` header (absent: `None`) and its body in base64. */
  datatype Response = Response(contentType: Option<string>, base64: string)

  /** The services the step calls: `fetch`, `mime.extension` ("" where it returns
      `false`) and `path.join`. */
  datatype ImageIo = ImageIo(
    fetch: string -> Response,
    extension: Option<string> -> string,
    join: (string, string) -> string)

  /** One `[src, filename]` entry of the image list. */
  datatype Entry = Entry(src: string, filename: string)

  /** `{ imageList, markdown }`: saved path to file name, and the rewritten markdown. */
  datatype Downloaded = Downloaded(imageList: map<string, string>, markdown: string)

  const Unknown: string := ".idunno"

  /** A header value as a template literal prints it: `null` when absent. */
  function HeaderText(h: Option<string>): string {
    match h
    case None => "null"
    case Some(s) => s
  }

  /** The data URL an image is inlined as (line 234). */
  function DataUrl(r: Response): (u: string)
    ensures StartsWith(u, "data:") && EndsWith(u, ";base64," + r.base64)
    ensures |u| == 5 + |HeaderText(r.contentType)| + 8 + |r.base64|
    ensures u[5..5 + |HeaderText(r.contentType)|] == HeaderText(r.contentType)
    ensures r.contentType.None? ==> u[5..9] == "null"
  {
    var u := "data:" + HeaderText(r.contentType) + ";base64," + r.base64;
    assert u[..5] == "data:";
    assert u[|u| - |";base64," + r.base64|..] == ";base64," + r.base64;
    assert u[5..5 + |HeaderText(r.contentType)|] == HeaderText(r.contentType);
    u
  }

  /** `mime.extension(type) || 'bin'`. */
  function ExtensionOf(r: Response, io: ImageIo): (ext: string)
    ensures ext != ""
    ensures io.extension(r.contentType) == "" ==> ext == "bin"
    ensures io.extension(r.contentType) != "" ==> ext == io.extension(r.contentType)
  {
    var e := io.extension(r.contentType);
    if e == "" then "bin" else e
  }

  /** The name an image is saved under (lines 237-242). */
  function NewFilename(e: Entry, r: Response, io: ImageIo): string {
    if EndsWith(e.filename, Unknown) then ReplaceFirst(e.filename, Unknown, "." + ExtensionOf(r, io))
    else e.filename
  }

  /** `path.join(path.join('output', id), newFilename)`. */
  function Destination(e: Entry, r: Response, id: string, io: ImageIo): string {
    io.join(io.join("output", id), NewFilename(e, r, io))
  }

  /** What one callback does to the shared state once its response has arrived. */
  function Step(acc: Downloaded, e: Entry, inline: bool, id: string, io: ImageIo): Downloaded {
    var r := io.fetch(e.src);
    if inline then Downloaded(acc.imageList, ReplaceAll(acc.markdown, e.src, DataUrl(r)))
    else
      var name := NewFilename(e, r, io);
      var markdown := if EndsWith(e.filename, Unknown) then ReplaceAll(acc.markdown, e.filename, name)
                      else acc.markdown;
      Downloaded(acc.imageList[Destination(e, r, id, io) := name], markdown)
  }

  /** The callbacks applied in the order their responses complete. */
  function DownloadAll(acc: Downloaded, entries: seq<Entry>, inline: bool, id: string, io: ImageIo): Downloaded
    decreases |entries|
  {
    if entries == [] then acc else DownloadAll(Step(acc, entries[0], inline, id, io), entries[1..], inline, id, io)
  }

  /** `preDownloadImages(imageList, markdown, options, id)`, with `entries` listed in
      the order the fetches complete. */
  method PreDownloadImages(entries: seq<Entry>, markdown: string, options: Options, id: string, io: ImageIo)
    returns (r: Downloaded)
    ensures r == DownloadAll(Downloaded(map[], markdown), entries, Lookup(options, "imageStyle") == Str("base64"), id, io)
  {
    var newImageList: map<string, string> := map[];
    var md := markdown;
    ghost var inline := Lookup(options, "imageStyle") == Str("base64");
    for i := 0 to |entries|
      invariant DownloadAll(Downloaded(newImageList, md), entries[i..], inline, id, io)
             == DownloadAll(Downloaded(map[], markdown), entries, inline, id, io)
    {
      assert entries[i..][1..] == entries[i + 1..];
      var src := entries[i].src;
      var filename := entries[i].filename;
      var res := io.fetch(src);
      if Lookup(options, "imageStyle") == Str("base64") {
        var dataUrl := DataUrl(res);
        md := ReplaceAll(md, src, dataUrl);
      } else {
        var newFilename := filename;
        if EndsWith(newFilename, Unknown) {
          var ext := ExtensionOf(res, io);
          newFilename := ReplaceFirst(filename, Unknown, "." + ext);
          md := ReplaceAll(md, filename, newFilename);
        }
        var dir := io.join("output", id);
        var dest := io.join(dir, newFilename);
        newImageList := newImageList[dest := newFilename];
      }
    }
    assert entries[|entries|..] == [];
    r := Downloaded(newImageList, md);
  }

  /** The first `.idunno` of the name is the one replaced by the type's extension
      (`bin` when the type is unknown); everything around it is kept. */
  lemma RenamesFirstUnknown(before: string, after: string, src: string, r: Response, io: ImageIo)
    requires EndsWith(before + Unknown + after, Unknown)
    requires forall j :: 0 <= j < |before| ==> !OccursAt(before + Unknown + after, Unknown, j)
    requires '$' !in io.extension(r.contentType)
    ensures NewFilename(Entry(src, before + Unknown + after), r, io) == before + "." + ExtensionOf(r, io) + after
  {
    ReplaceFirstAt(before, Unknown, after, "." + ExtensionOf(r, io));
  }

  /** A name ending in `.idunno` whose stem holds no other `.idunno` gets the extension as its new ending. */
  lemma RenamesUnknownSuffix(stem: string, src: string, r: Response, io: ImageIo)
    requires forall j :: 0 <= j < |stem| ==> !OccursAt(stem + Unknown, Unknown, j)
    requires '$' !in io.extension(r.contentType)
    ensures NewFilename(Entry(src, stem + Unknown), r, io) == stem + "." + ExtensionOf(r, io)
  {
    assert stem + Unknown + "" == stem + Unknown;
    assert (stem + Unknown)[|stem + Unknown| - |Unknown|..] == Unknown;
    RenamesFirstUnknown(stem, "", src, r, io);
  }

  /** Saving an image whose name ends in `.idunno` rewrites every mention of the
      old name in the markdown, left to right, to the new name. */
  lemma StepRenamesEveryMention(acc: Downloaded, before: string, after: string, src: string, id: string, io: ImageIo)
    requires EndsWith(before + Unknown + after, Unknown)
    requires forall j :: 0 <= j < |before| ==> !OccursAt(before + Unknown + after, Unknown, j)
    requires '$' !in io.extension(io.fetch(src).contentType) && '$' !in before && '$' !in after
    ensures Step(acc, Entry(src, before + Unknown + after), false, id, io).markdown
         == Substitute(acc.markdown, before + Unknown + after,
                       before + "." + ExtensionOf(io.fetch(src), io) + after)
  {
    var r := io.fetch(src);
    var ext := ExtensionOf(r, io);
    var name := before + "." + ext + after;
    RenamesFirstUnknown(before, after, src, r, io);
    assert '$' !in ext by {
      if ext == "bin" {
        assert forall k :: 0 <= k < |ext| ==> ext[k] != '$';
      }
    }
    assert '$' !in name;
    ReplaceAllIsSubstitute(acc.markdown, before + Unknown + after, name);
  }

  /** Inlining records nothing: the list comes back as it was given. */
  lemma {:induction false} InlineKeepsList(acc: Downloaded, entries: seq<Entry>, id: string, io: ImageIo)
    ensures DownloadAll(acc, entries, true, id, io).imageList == acc.imageList
    decreases |entries|
  {
    if entries != [] {
      InlineKeepsList(Step(acc, entries[0], true, id, io), entries[1..], id, io);
    }
  }

  /** Saving touches the markdown only for names ending in `.idunno`. */
  lemma {:induction false} KnownNamesKeepMarkdown(acc: Downloaded, entries: seq<Entry>, id: string, io: ImageIo)
    requires forall k :: 0 <= k < |entries| ==> !EndsWith(entries[k].filename, Unknown)
    ensures DownloadAll(acc, entries, false, id, io).markdown == acc.markdown
    decreases |entries|
  {
    if entries != [] {
      KnownNamesKeepMarkdown(Step(acc, entries[0], false, id, io), entries[1..], id, io);
    }
  }

  /** Where image `e` is saved. */
  function SavedAt(e: Entry, id: string, io: ImageIo): string {
    Destination(e, io.fetch(e.src), id, io)
  }

  /** The paths the images of `entries` are saved at. */
  function SavedPaths(entries: seq<Entry>, id: string, io: ImageIo): (paths: set<string>)
    ensures forall k :: 0 <= k < |entries| ==> SavedAt(entries[k], id, io) in paths
    ensures forall p :: p in paths ==> exists k :: 0 <= k < |entries| && SavedAt(entries[k], id, io) == p
    decreases |entries|
  {
    if entries == [] then {}
    else
      var rest := SavedPaths(entries[1..], id, io);
      assert forall k :: 0 < k < |entries| ==> entries[k] == entries[1..][k - 1];
      {SavedAt(entries[0], id, io)} + rest
  }

  /** Saving records one path per image and nothing else: the recorded paths are
      the ones given plus the destination of every listed image. */
  lemma {:induction false} SavedKeys(acc: Downloaded, entries: seq<Entry>, id: string, io: ImageIo)
    ensures DownloadAll(acc, entries, false, id, io).imageList.Keys == acc.imageList.Keys + SavedPaths(entries, id, io)
    decreases |entries|
  {
    if entries != [] {
      SavedKeys(Step(acc, entries[0], false, id, io), entries[1..], id, io);
    }
  }

  /** The last image saved to a path names the file stored there. */
  lemma {:induction false} SavedLastWins(acc: Downloaded, entries: seq<Entry>, k: nat, id: string, io: ImageIo)
    requires k < |entries|
    requires forall l :: k < l < |entries| ==> SavedAt(entries[l], id, io) != SavedAt(entries[k], id, io)
    ensures SavedAt(entries[k], id, io) in DownloadAll(acc, entries, false, id, io).imageList
    ensures DownloadAll(acc, entries, false, id, io).imageList[SavedAt(entries[k], id, io)]
         == NewFilename(entries[k], io.fetch(entries[k].src), io)
    decreases |entries|
  {
    var next := Step(acc, entries[0], false, id, io);
    var rest := entries[1..];
    SavedKeys(acc, entries, id, io);
    if k > 0 {
      assert entries[k] == rest[k - 1];
      forall l | k - 1 < l < |rest|
        ensures SavedAt(rest[l], id, io) != SavedAt(rest[k - 1], id, io)
      {
        assert rest[l] == entries[l + 1];
      }
      SavedLastWins(next, rest, k - 1, id, io);
    } else {
      assert SavedAt(entries[0], id, io) !in SavedPaths(rest, id, io) by {
        forall l | 0 <= l < |rest|
          ensures SavedAt(rest[l], id, io) != SavedAt(entries[0], id, io)
        {
          assert rest[l] == entries[l + 1];
        }
      }
      SavedOthersKept(next, rest, SavedAt(entries[0], id, io), id, io);
    }
  }

  /** A path no listed image is saved at keeps its entry. */
  lemma {:induction false} SavedOthersKept(acc: Downloaded, entries: seq<Entry>, p: string, id: string, io: ImageIo)
    requires p in acc.imageList && p !in SavedPaths(entries, id, io)
    ensures p in DownloadAll(acc, entries, false, id, io).imageList
    ensures DownloadAll(acc, entries, false, id, io).imageList[p] == acc.imageList[p]
    decreases |entries|
  {
    if entries != [] {
      var rest := entries[1..];
      assert p !in SavedPaths(rest, id, io) by {
        forall l | 0 <= l < |rest|
          ensures SavedAt(rest[l], id, io) != p
        {
          assert rest[l] == entries[l + 1];
        }
      }
      SavedOthersKept(Step(acc, entries[0], false, id, io), rest, p, id, io);
    }
  }
}
