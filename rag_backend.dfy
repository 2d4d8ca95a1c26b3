/** The sample multimodal RAG backend: the prompt its chat pipeline sends
    to the model, the content-type checks of its three upload endpoints,
    the choice between storing an upload as a document or as a video, and
    the file listing. Reading and writing files, the table inserts and the
    web framework are outside the model: a failure of any of them is the
    `ioError` parameter, and the file system the listing consults is a map
    from existing paths to their sizes. */
module RagBackend {
  import opened Common

  // -----------------------------------------------------------------------
  // prompt assembly

  /** A retrieved chunk as the similarity query returns it: a missing row
      (`None`) or a dictionary of its selected fields. */
  type Item = Option<map<string, string>>

  /** `item and 'text' in item`: the item is kept when it is present and
      has a text; an empty dictionary has none. */
  predicate Kept(item: Item)
  {
    item.Some? && "text" in item.value
  }

  /** The texts of the kept items, in order. */
  function Texts(items: seq<Item>): seq<string>
  {
    if |items| == 0 then []
    else
      var last := items[|items| - 1];
      Texts(items[..|items| - 1]) + (if Kept(last) then [last.value["text"]] else [])
  }

  /** The three retrieval sources a prompt draws on, in prompt order. */
  datatype Source = Documents | Videos | Audio

  function Header(src: Source): string
  {
    match src
    case Documents => "Document Context:\n"
    case Videos => "Video Context:\n"
    case Audio => "Audio Context:\n"
  }

  function Rank(src: Source): nat
  {
    match src
    case Documents => 0
    case Videos => 1
    case Audio => 2
  }

  const SectionSeparator: string := "\n\n---\n\n"
  const NoContext: string := "No relevant context found."
  const ContextLabel: string := "Context:\n"
  const QuestionLabel: string := "\n\nQuestion:\n"

  /** The context list `create_prompt` receives for a source. */
  function ContextOf(src: Source, doc: seq<Item>, video: seq<Item>, audio: seq<Item>): seq<Item>
  {
    match src
    case Documents => doc
    case Videos => video
    case Audio => audio
  }

  /** The sources whose context list is non-empty (truthy), in prompt
      order. */
  function Present(doc: seq<Item>, video: seq<Item>, audio: seq<Item>): seq<Source>
  {
    (if |doc| > 0 then [Documents] else [])
    + (if |video| > 0 then [Videos] else [])
    + (if |audio| > 0 then [Audio] else [])
  }

  /** One context section: its header and the kept texts, separated by a
      blank line. */
  function Section(src: Source, items: seq<Item>): string
  {
    Header(src) + Join(Texts(items), "\n\n")
  }

  /** The sections of the present sources, in order. */
  function Sections(doc: seq<Item>, video: seq<Item>, audio: seq<Item>): (r: seq<string>)
    ensures |r| == |Present(doc, video, audio)|
  {
    var present := Present(doc, video, audio);
    seq(|present|, i requires 0 <= i < |present| => Section(present[i], ContextOf(present[i], doc, video, audio)))
  }

  /** The context block: the sections separated by a rule, or the fixed
      notice when there is none. */
  function Context(doc: seq<Item>, video: seq<Item>, audio: seq<Item>): string
  {
    var parts := Sections(doc, video, audio);
    if |parts| > 0 then Join(parts, SectionSeparator) else NoContext
  }

  /** `create_prompt`: the context block and the question under their
      labels. */
  function CreatePrompt(doc: seq<Item>, video: seq<Item>, audio: seq<Item>, question: string): (p: string)
    ensures StartsWith(p, ContextLabel)
    ensures EndsWith(p, QuestionLabel + question)
  {
    var context := Context(doc, video, audio);
    var tail := QuestionLabel + question;
    assert (ContextLabel + context) + tail == ContextLabel + (context + tail);
    ContextLabel + context + tail
  }

  /** A source has a section exactly when its context list is non-empty,
      and the sections come documents first, then video, then audio. */
  lemma PresentIff(doc: seq<Item>, video: seq<Item>, audio: seq<Item>, src: Source)
    ensures src in Present(doc, video, audio) <==> |ContextOf(src, doc, video, audio)| > 0
    ensures forall i, j :: 0 <= i < j < |Present(doc, video, audio)| ==>
      Rank(Present(doc, video, audio)[i]) < Rank(Present(doc, video, audio)[j])
  {
  }

  /** A text is in the list of kept texts exactly when some kept item
      carries it. */
  lemma {:induction false} TextsIff(items: seq<Item>, t: string)
    ensures t in Texts(items) <==> exists i :: 0 <= i < |items| && Kept(items[i]) && items[i].value["text"] == t
    ensures |Texts(items)| <= |items|
  {
    if |items| > 0 {
      var init := items[..|items| - 1];
      TextsIff(init, t);
      if exists i :: 0 <= i < |items| && Kept(items[i]) && items[i].value["text"] == t {
        var i :| 0 <= i < |items| && Kept(items[i]) && items[i].value["text"] == t;
        if i < |items| - 1 {
          assert init[i] == items[i];
        }
      }
      if t in Texts(init) {
        var i :| 0 <= i < |init| && Kept(init[i]) && init[i].value["text"] == t;
        assert items[i] == init[i];
      }
    }
  }

  /** `sep.join(parts)` starts with the first part. */
  lemma {:induction false} JoinStartsWithFirst(parts: seq<string>, sep: string)
    requires |parts| > 0
    ensures StartsWith(Join(parts, sep), parts[0])
  {
    if |parts| > 1 {
      var init := parts[..|parts| - 1];
      JoinStartsWithFirst(init, sep);
      var head := Join(init, sep);
      assert Join(parts, sep) == head + sep + parts[|parts| - 1];
      assert (head + sep + parts[|parts| - 1])[..|parts[0]|] == head[..|parts[0]|];
    }
  }

  /** No header starts like the notice. */
  lemma HeaderInitial(src: Source)
    ensures |Header(src)| > 0 && |NoContext| > 0 && Header(src)[0] != NoContext[0]
  {
  }

  /** Two strings framed alike are equal. */
  lemma CancelFrame(a: string, x: string, y: string, b: string)
    requires a + x + b == a + y + b
    ensures x == y
  {
    var s := a + x + b;
    assert |x| == |y|;
    assert s[|a|..|a| + |x|] == x;
    assert (a + y + b)[|a|..|a| + |y|] == y;
  }

  /** The context block is the fixed notice exactly when all three context
      lists are empty. */
  lemma NoContextIff(doc: seq<Item>, video: seq<Item>, audio: seq<Item>)
    ensures Context(doc, video, audio) == NoContext <==> |doc| == 0 && |video| == 0 && |audio| == 0
  {
    var parts := Sections(doc, video, audio);
    var present := Present(doc, video, audio);
    if |parts| > 0 {
      JoinStartsWithFirst(parts, SectionSeparator);
      var c := Join(parts, SectionSeparator);
      HeaderInitial(present[0]);
      assert parts[0] == Header(present[0]) + Join(Texts(ContextOf(present[0], doc, video, audio)), "\n\n");
      assert c[0] == parts[0][0] == Header(present[0])[0];
    }
  }

  /** The prompt is the notice and the question under their labels exactly
      when all three context lists are empty. */
  lemma PromptWithoutContextIff(doc: seq<Item>, video: seq<Item>, audio: seq<Item>, question: string)
    ensures CreatePrompt(doc, video, audio, question) == ContextLabel + NoContext + QuestionLabel + question
      <==> |doc| == 0 && |video| == 0 && |audio| == 0
  {
    NoContextIff(doc, video, audio);
    var c := Context(doc, video, audio);
    if CreatePrompt(doc, video, audio, question) == ContextLabel + NoContext + QuestionLabel + question {
      assert CreatePrompt(doc, video, audio, question) == ContextLabel + c + (QuestionLabel + question);
      assert ContextLabel + NoContext + QuestionLabel + question == ContextLabel + NoContext + (QuestionLabel + question);
      CancelFrame(ContextLabel, c, NoContext, QuestionLabel + question);
    }
  }

  lemma ContainsTransitive(a: string, b: string, c: string)
    requires Contains(b, a) && Contains(c, b)
    ensures Contains(c, a)
  {
    ContainsIff(b, a);
    ContainsIff(c, b);
    var i :| OccursAt(b, a, i);
    var j :| OccursAt(c, b, j);
    forall k | 0 <= k < |a| ensures c[j + i + k] == a[k] {
      assert c[j + (i + k)] == b[i + k];
    }
    assert c[j + i..j + i + |a|] == a;
    assert OccursAt(c, a, j + i);
    ContainsIff(c, a);
  }

  lemma ContainsFramed(prefix: string, s: string, suffix: string)
    ensures Contains(prefix + s + suffix, s)
  {
    assert OccursAt(s, s, 0);
    OccursInside(prefix, s, suffix, s, 0);
    ContainsIff(prefix + s + suffix, s);
  }

  /** A kept item's text appears in its section. */
  lemma TextInSection(src: Source, items: seq<Item>, t: string)
    requires exists i :: 0 <= i < |items| && Kept(items[i]) && items[i].value["text"] == t
    ensures Contains(Section(src, items), t)
  {
    TextsIff(items, t);
    var texts := Texts(items);
    JoinHoldsParts(texts, "\n\n");
    var k :| 0 <= k < |texts| && texts[k] == t;
    var body := Join(texts, "\n\n");
    ContainsFramed(Header(src), body, "");
    assert Header(src) + body + "" == Section(src, items);
    ContainsTransitive(t, body, Section(src, items));
  }

  /** The prompt holds its context block and ends with the question. */
  lemma PromptFrames(doc: seq<Item>, video: seq<Item>, audio: seq<Item>, question: string)
    ensures Contains(CreatePrompt(doc, video, audio, question), Context(doc, video, audio))
    ensures Contains(CreatePrompt(doc, video, audio, question), question)
    ensures EndsWith(CreatePrompt(doc, video, audio, question), QuestionLabel + question)
  {
    var c := Context(doc, video, audio);
    var prompt := CreatePrompt(doc, video, audio, question);
    ContainsFramed(ContextLabel, c, QuestionLabel + question);
    ContainsFramed(ContextLabel + c + QuestionLabel, question, "");
    AppendAssoc(ContextLabel + c, QuestionLabel, question);
    assert ContextLabel + c + QuestionLabel + question + "" == prompt;
  }

  /** Every text a kept item carries in the context list of a source
      appears in the prompt, and so does the question. */
  lemma PromptHoldsTexts(doc: seq<Item>, video: seq<Item>, audio: seq<Item>, question: string, src: Source, t: string)
    requires exists i ::
      && 0 <= i < |ContextOf(src, doc, video, audio)|
      && Kept(ContextOf(src, doc, video, audio)[i])
      && ContextOf(src, doc, video, audio)[i].value["text"] == t
    ensures Contains(CreatePrompt(doc, video, audio, question), t)
    ensures Contains(CreatePrompt(doc, video, audio, question), question)
  {
    var items := ContextOf(src, doc, video, audio);
    TextInSection(src, items, t);
    PresentIff(doc, video, audio, src);
    var present := Present(doc, video, audio);
    var parts := Sections(doc, video, audio);
    var m :| 0 <= m < |present| && present[m] == src;
    assert parts[m] == Section(src, items);
    JoinHoldsParts(parts, SectionSeparator);
    ContainsTransitive(t, Section(src, items), Context(doc, video, audio));
    PromptFrames(doc, video, audio, question);
    ContainsTransitive(t, Context(doc, video, audio), CreatePrompt(doc, video, audio, question));
  }

  // -----------------------------------------------------------------------
  // content types

  const DocumentTypes: seq<string> := [
    "application/pdf",
    "application/msword",
    "application/" + "vnd.openxmlformats-officedocument." + "wordprocessingml.document",
    "text/x-python"
  ]

  const VideoTypes: seq<string> := ["video/mp4", "video/quicktime", "video/x-msvideo", "video/webm"]

  const AudioTypes: seq<string> := ["audio/mpeg", "audio/wav", "audio/ogg", "audio/webm"]

  /** `any(content_type.startswith(t) for t in types)`. */
  predicate StartsWithAny(contentType: string, types: seq<string>)
  {
    exists i :: 0 <= i < |types| && StartsWith(contentType, types[i])
  }

  /** The type check of `upload_file`: a document type exactly, or
      anything that starts with a video type. */
  predicate FileTypeAllowed(contentType: string)
  {
    contentType in DocumentTypes || StartsWithAny(contentType, VideoTypes)
  }

  /** What an upload endpoint answers. */
  datatype Reply =
    | HttpError(status: nat, detail: string)
    /** `upload_file`'s answer; `fileType` also names the column the path
        was inserted into. */
    | FileUploaded(message: string, filename: string, size: nat, fileType: string)
    /** `upload_video`'s and `upload_audio`'s answer. */
    | MediaUploaded(message: string, filename: string)

  /** The framework's answer to an exception no handler caught. */
  const InternalError: Reply := HttpError(500, "Internal Server Error")

  /** The document-vs-video choice of an accepted `upload_file`. */
  function UploadKind(filename: string, contentType: string): (k: string)
    ensures k == "document" || k == "video"
    ensures k == "video" ==> contentType !in DocumentTypes
  {
    if contentType in DocumentTypes || EndsWith(filename, ".py") then "document" else "video"
  }

  const NoFileProvided := "No file provided"

  /** What escapes `startswith` on a missing content type. */
  const MissingTypeError := "Unexpected error: 'NoneType' object has no attribute 'startswith'"

  function InvalidFileType(contentType: string): string
  {
    "Invalid file type. Got " + contentType + ". Allowed types are PDF, Word documents, and videos"
  }

  function ProcessingError(error: string): string
  {
    "Error processing file: " + error
  }

  function UploadedMessage(filename: string): string
  {
    "Successfully uploaded and processed " + filename
  }

  /** `upload_file`. A missing or empty file name is a 400; a missing
      content type fails on `startswith` and is reported as an unexpected
      error; a type that passes neither check is a 400 naming it; a failure
      while saving or inserting is a 500; otherwise the file is stored as
      a document or a video. */
  function UploadFile(filename: Option<string>, contentType: Option<string>, size: nat, ioError: Option<string>): (r: Reply)
    ensures r.HttpError? ==> r.status == 400 || r.status == 500
    ensures !r.MediaUploaded?
    ensures r.FileUploaded? ==>
      filename == Some(r.filename) && r.filename != "" && r.size == size && ioError.None?
      && (r.fileType == "document" || r.fileType == "video")
    ensures r.FileUploaded? && r.fileType == "video" ==> contentType.Some? && StartsWithAny(contentType.value, VideoTypes)
  {
    if filename.None? || filename.value == "" then HttpError(400, NoFileProvided)
    else if contentType.None? then HttpError(500, MissingTypeError)
    else if !FileTypeAllowed(contentType.value) then HttpError(400, InvalidFileType(contentType.value))
    else if ioError.Some? then HttpError(500, ProcessingError(ioError.value))
    else FileUploaded(UploadedMessage(filename.value), filename.value, size, UploadKind(filename.value, contentType.value))
  }

  /** `upload_video` and `upload_audio`, which differ in their type list,
      their rejection text and their message. A missing content type fails
      before the handler's own error handling. */
  function UploadMedia(types: seq<string>, kindName: string, filename: string, contentType: Option<string>,
                       ioError: Option<string>): (r: Reply)
    ensures r.HttpError? ==> r.status == 400 || r.status == 500
    ensures !r.FileUploaded?
    ensures r.MediaUploaded? ==>
      contentType.Some? && StartsWithAny(contentType.value, types) && ioError.None? && r.filename == filename
  {
    if contentType.None? then InternalError
    else if !StartsWithAny(contentType.value, types) then HttpError(400, "Invalid " + kindName + " format")
    else if ioError.Some? then HttpError(500, "Error uploading " + kindName + ": " + ioError.value)
    else MediaUploaded("Successfully uploaded " + kindName + ": " + filename, filename)
  }

  function UploadVideo(filename: string, contentType: Option<string>, ioError: Option<string>): (r: Reply)
    ensures r.MediaUploaded? ==> contentType.Some? && StartsWithAny(contentType.value, VideoTypes)
    ensures r.MediaUploaded? ==> FileTypeAllowed(contentType.value)
  {
    UploadMedia(VideoTypes, "video", filename, contentType, ioError)
  }

  function UploadAudio(filename: string, contentType: Option<string>, ioError: Option<string>): (r: Reply)
    ensures r.MediaUploaded? ==> contentType.Some? && StartsWithAny(contentType.value, AudioTypes)
    ensures r.MediaUploaded? ==> !FileTypeAllowed(contentType.value)
  {
    if contentType.Some? && StartsWithAny(contentType.value, AudioTypes) then
      AudioPrefixRejected(contentType.value);
      UploadMedia(AudioTypes, "audio", filename, contentType, ioError)
    else UploadMedia(AudioTypes, "audio", filename, contentType, ioError)
  }

  /** A type that starts with an audio type is not one `upload_file`
      accepts. */
  lemma AudioPrefixRejected(t: string)
    requires StartsWithAny(t, AudioTypes)
    ensures !FileTypeAllowed(t)
  {
    var i :| 0 <= i < |AudioTypes| && StartsWith(t, AudioTypes[i]);
    assert t[0] == AudioTypes[i][0] == 'a' && t[1] == AudioTypes[i][1] == 'u';
    assert forall k :: 0 <= k < |VideoTypes| ==> |VideoTypes[k]| > 0 && VideoTypes[k][0] == 'v';
    assert forall k :: 0 <= k < |DocumentTypes| ==> |DocumentTypes[k]| > 1 && DocumentTypes[k][..2] != "au";
    assert t[..2] == "au";
  }

  /** `upload_file` succeeds exactly when the file has a name, its type
      passes the check and storing it works; it is rejected with a 400
      exactly when the name is missing or the type fails the check. */
  lemma UploadFileIff(filename: Option<string>, contentType: Option<string>, size: nat, ioError: Option<string>)
    ensures UploadFile(filename, contentType, size, ioError).FileUploaded? <==>
      filename.Some? && filename.value != "" && contentType.Some? && FileTypeAllowed(contentType.value) && ioError.None?
    ensures UploadFile(filename, contentType, size, ioError).HttpError? && UploadFile(filename, contentType, size, ioError).status == 400 <==>
      filename.None? || filename.value == "" || (contentType.Some? && !FileTypeAllowed(contentType.value))
  {
  }

  /** An accepted upload is a document exactly when its type is a document
      type or its name ends in `.py`, and a video otherwise; the answer
      echoes the name and size. */
  lemma UploadKindIff(filename: string, contentType: string, size: nat)
    requires filename != "" && FileTypeAllowed(contentType)
    ensures var r := UploadFile(Some(filename), Some(contentType), size, None);
      && r.FileUploaded? && r.filename == filename && r.size == size
      && (r.fileType == "document" <==> contentType in DocumentTypes || EndsWith(filename, ".py"))
      && (r.fileType == "video" <==> !(contentType in DocumentTypes || EndsWith(filename, ".py")))
  {
  }

  /** The media endpoints accept exactly the types that start with one of
      their prefixes; anything else present is a 400. */
  lemma UploadMediaIff(types: seq<string>, kindName: string, filename: string, contentType: Option<string>, ioError: Option<string>)
    ensures UploadMedia(types, kindName, filename, contentType, ioError).MediaUploaded? <==>
      contentType.Some? && StartsWithAny(contentType.value, types) && ioError.None?
    ensures (UploadMedia(types, kindName, filename, contentType, ioError).HttpError?
      && UploadMedia(types, kindName, filename, contentType, ioError).status == 400) <==>
      contentType.Some? && !StartsWithAny(contentType.value, types)
  {
  }

  /** Every type the video endpoint accepts passes `upload_file`'s check
      too, and is stored as a video unless the name ends in `.py`; the
      audio types pass neither. */
  lemma VideoTypesReachUploadFile(filename: string, contentType: string)
    requires filename != "" && StartsWithAny(contentType, VideoTypes)
    ensures FileTypeAllowed(contentType)
    ensures !EndsWith(filename, ".py") ==> UploadFile(Some(filename), Some(contentType), 0, None).fileType == "video"
  {
    var i :| 0 <= i < |VideoTypes| && StartsWith(contentType, VideoTypes[i]);
    assert contentType[0] == VideoTypes[i][0] == 'v';
    assert DocumentTypes[0][0] == 'a' && DocumentTypes[1][0] == 'a' && DocumentTypes[2][0] == 'a' && DocumentTypes[3][0] == 't';
    assert forall k :: 0 <= k < |DocumentTypes| ==> DocumentTypes[k][0] != 'v';
  }

  /** No audio type passes `upload_file`'s check or the video endpoint's. */
  lemma AudioTypesRejectedByUploadFile(t: string)
    requires t in AudioTypes
    ensures !FileTypeAllowed(t) && !StartsWithAny(t, VideoTypes)
  {
    assert t[0] == 'a';
    assert forall k :: 0 <= k < |VideoTypes| ==> |VideoTypes[k]| > 0 && VideoTypes[k][0] == 'v';
    assert forall k :: 0 <= k < |DocumentTypes| ==> DocumentTypes[k] !in AudioTypes;
  }

  // -----------------------------------------------------------------------
  // listing files

  /** A file entry of `list_files`; `id` (a salted hash of the name) is not
      modelled. */
  datatype FileRecord = FileRecord(name: string, size: nat, fileType: string, status: string, uploadProgress: nat)

  /** `Path(path).name` for a POSIX path: the last component, skipping
      empty and `.` components; "" when there is none. */
  function PathName(path: string): (r: string)
    ensures '/' !in r
    decreases |path|
  {
    var k := LastIndex(path, '/');
    var last := path[k + 1..];
    if last != "" && last != "." then last
    else if k < 0 then ""
    else PathName(path[..k])
  }

  /** The name of a file placed in a directory is the file's own name. */
  lemma PathNameOfChild(dir: string, name: string)
    requires name != "" && name != "." && '/' !in name
    ensures PathName(dir + "/" + name) == name
  {
    LastIndexAt(dir, '/', name);
    var p := dir + "/" + name;
    assert p[|dir| + 1..] == name;
  }

  /** `if not path: continue`, then `Path(path).exists()`. */
  predicate Listable(path: Option<string>, fs: map<string, nat>)
  {
    path.Some? && path.value != "" && path.value in fs
  }

  function RecordOf(path: string, fs: map<string, nat>, fileType: string): FileRecord
    requires path in fs
  {
    FileRecord(PathName(path), fs[path], fileType, "success", 100)
  }

  /** The entry a row of paths gives, if any. */
  function Entry(path: Option<string>, fs: map<string, nat>, fileType: string): Option<FileRecord>
  {
    if Listable(path, fs) then Some(RecordOf(path.value, fs, fileType)) else None
  }

  /** The values of the present results of `f` over `s`, in order. */
  function FilterMap<A, B>(s: seq<A>, f: A -> Option<B>): seq<B>
  {
    if |s| == 0 then []
    else FilterMap(s[..|s| - 1], f) + (if f(s[|s| - 1]).Some? then [f(s[|s| - 1]).value] else [])
  }

  lemma {:induction false} FilterMapIff<A, B>(s: seq<A>, f: A -> Option<B>, b: B)
    ensures b in FilterMap(s, f) <==> exists i :: 0 <= i < |s| && f(s[i]) == Some(b)
  {
    if |s| > 0 {
      var init := s[..|s| - 1];
      FilterMapIff(init, f, b);
      if exists i :: 0 <= i < |s| && f(s[i]) == Some(b) {
        var i :| 0 <= i < |s| && f(s[i]) == Some(b);
        if i < |s| - 1 {
          assert init[i] == s[i];
        }
      }
      if b in FilterMap(init, f) {
        var i :| 0 <= i < |init| && f(init[i]) == Some(b);
        assert s[i] == init[i];
      }
    }
  }

  /** The entries one loop of `list_files` produces for a column of paths. */
  function Listed(paths: seq<Option<string>>, fs: map<string, nat>, fileType: string): seq<FileRecord>
  {
    FilterMap(paths, (p: Option<string>) => Entry(p, fs, fileType))
  }

  /** An entry is listed exactly when some non-empty existing path gives
      it. */
  lemma ListedIff(paths: seq<Option<string>>, fs: map<string, nat>, fileType: string, r: FileRecord)
    ensures r in Listed(paths, fs, fileType) <==> exists i :: 0 <= i < |paths| && Entry(paths[i], fs, fileType) == Some(r)
  {
    FilterMapIff(paths, (p: Option<string>) => Entry(p, fs, fileType), r);
  }

  /** Every listed entry has the type it was listed under. */
  lemma {:induction false} ListedType(paths: seq<Option<string>>, fs: map<string, nat>, fileType: string)
    ensures forall r :: r in Listed(paths, fs, fileType) ==> r.fileType == fileType
  {
    if |paths| > 0 {
      ListedType(paths[..|paths| - 1], fs, fileType);
    }
  }

  /** Python's `<` on strings. */
  predicate Less(a: string, b: string)
  {
    LessEq(a, b) && a != b
  }

  /** The sort key `(type, name)` compared as Python compares tuples. */
  predicate FileLeq(a: FileRecord, b: FileRecord)
  {
    if a.fileType != b.fileType then Less(a.fileType, b.fileType) else LessEq(a.name, b.name)
  }

  lemma FileOrderIsTotalPreorder()
    ensures TotalPreorder(FileLeq)
  {
    forall a: FileRecord, b: FileRecord ensures FileLeq(a, b) || FileLeq(b, a) {
      LessEqTotal(a.fileType, b.fileType);
      LessEqTotal(a.name, b.name);
    }
    forall a: FileRecord, b: FileRecord, c: FileRecord | FileLeq(a, b) && FileLeq(b, c) ensures FileLeq(a, c) {
      if a.fileType == b.fileType && b.fileType == c.fileType {
        LessEqTransitive(a.name, b.name, c.name);
      } else if a.fileType != b.fileType && b.fileType != c.fileType {
        LessEqTransitive(a.fileType, b.fileType, c.fileType);
        if a.fileType == c.fileType {
          LessEqAntisymmetric(a.fileType, b.fileType);
        }
      }
    }
  }

  /** `files.sort(key=lambda x: (x['type'], x['name']))`. */
  function SortFiles(files: seq<FileRecord>): (r: seq<FileRecord>)
    ensures SortedBy(r, FileLeq)
    ensures multiset(r) == multiset(files)
  {
    FileOrderIsTotalPreorder();
    SortBy(files, FileLeq)
  }

  /** One loop of `list_files`: the entries of `paths` appended to
      `files0`. */
  method CollectFiles(paths: seq<Option<string>>, fs: map<string, nat>, fileType: string, files0: seq<FileRecord>)
    returns (files: seq<FileRecord>)
    ensures files == files0 + Listed(paths, fs, fileType)
  {
    files := files0;
    var i := 0;
    while i < |paths|
      invariant 0 <= i <= |paths|
      invariant files == files0 + Listed(paths[..i], fs, fileType)
    {
      assert paths[..i + 1][..i] == paths[..i];
      var path := paths[i];
      if path.Some? && path.value != "" {
        if path.value in fs {
          AppendAssoc(files0, Listed(paths[..i], fs, fileType), [RecordOf(path.value, fs, fileType)]);
          files := files + [FileRecord(PathName(path.value), fs[path.value], fileType, "success", 100)];
        }
      }
      i := i + 1;
    }
    assert paths[..i] == paths;
  }

  /** `list_files`: the documents' entries, then the videos', sorted by
      type and name. */
  method ListFiles(docPaths: seq<Option<string>>, videoPaths: seq<Option<string>>, fs: map<string, nat>)
    returns (files: seq<FileRecord>)
    ensures files == SortFiles(Listed(docPaths, fs, "document") + Listed(videoPaths, fs, "video"))
  {
    files := CollectFiles(docPaths, fs, "document", []);
    assert files == Listed(docPaths, fs, "document");
    files := CollectFiles(videoPaths, fs, "video", files);
    files := SortFiles(files);
  }

  /** The listing holds exactly the entries of the non-empty existing
      paths, each once per row that names it, sorted by type and name, so
      every document comes before every video. */
  lemma ListFilesSpec(docPaths: seq<Option<string>>, videoPaths: seq<Option<string>>, fs: map<string, nat>)
    ensures var all := Listed(docPaths, fs, "document") + Listed(videoPaths, fs, "video");
      var files := SortFiles(all);
      && multiset(files) == multiset(all)
      && SortedBy(files, FileLeq)
      && (forall r :: r in files ==> r.fileType in {"document", "video"})
      && (forall i, j :: 0 <= i < j < |files| && files[j].fileType == "document" ==> files[i].fileType == "document")
  {
    var docs := Listed(docPaths, fs, "document");
    var videos := Listed(videoPaths, fs, "video");
    var all := docs + videos;
    var files := SortFiles(all);
    ListedType(docPaths, fs, "document");
    ListedType(videoPaths, fs, "video");
    forall r | r in files ensures r.fileType in {"document", "video"} {
      assert r in multiset(files);
      assert r in multiset(all);
    }
    forall i, j | 0 <= i < j < |files| && files[j].fileType == "document" ensures files[i].fileType == "document" {
      assert files[i] in files;
      assert FileLeq(files[i], files[j]);
    }
  }
}
