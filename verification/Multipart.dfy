/**
 The multipart body of an upload: the nested loops of handle_multipart_upload, and what they compute
 said without loops. A part arrives as chunks; a Field is the same part with its chunks put together.
 */
module Multipart {
  import opened Prelude
  import opened Metadata
  import opened Streams
  import Utf8

  const FIELD_LIMIT := 64 * 1024

  /** A part as it is streamed: its chunks, and whether reading it ends in an error. */
  datatype Part = Part(name: Option<string>, fileName: Option<string>, chunks: seq<seq<byte>>, broken: bool)

  datatype Field = Field(name: string, fileName: Option<string>, content: seq<byte>, broken: bool)

  function Whole(p: Part): Field {
    Field(p.name.GetOr(""), p.fileName, Flatten(p.chunks), p.broken)
  }

  function WholeAll(parts: seq<Part>): (fields: seq<Field>)
    ensures |fields| == |parts|
    ensures forall i :: 0 <= i < |parts| ==> fields[i] == Whole(parts[i])
  {
    seq(|parts|, i requires 0 <= i < |parts| => Whole(parts[i]))
  }

  datatype UploadError = BadStream | FieldTooLarge(name: string) | MissingFile | MissingFilename | WriteFailed

  /** The JSON object reader used for `extended`. */
  type ObjectReader = string -> Option<map<string, Json>>

  // ---------- Trimming ----------

  predicate IsWhitespace(c: char) {
    || '\U{0009}' <= c <= '\U{000D}' || c == ' ' || c == '\U{0085}' || c == '\U{00A0}' || c == '\U{1680}'
    || '\U{2000}' <= c <= '\U{200A}' || c == '\U{2028}' || c == '\U{2029}' || c == '\U{202F}' || c == '\U{205F}' || c == '\U{3000}'
  }

  function TrimStart(s: string): string {
    if s != "" && IsWhitespace(s[0]) then TrimStart(s[1..]) else s
  }

  function TrimEnd(s: string): string {
    if s != "" && IsWhitespace(s[|s| - 1]) then TrimEnd(s[..|s| - 1]) else s
  }

  function Trim(s: string): string {
    TrimEnd(TrimStart(s))
  }

  predicate AllWhitespace(s: string) {
    forall i :: 0 <= i < |s| ==> IsWhitespace(s[i])
  }

  lemma {:induction false} TrimStartSplits(s: string) returns (before: string)
    ensures AllWhitespace(before) && s == before + TrimStart(s)
    ensures TrimStart(s) != "" ==> !IsWhitespace(TrimStart(s)[0])
  {
    if s != "" && IsWhitespace(s[0]) {
      var rest := TrimStartSplits(s[1..]);
      before := [s[0]] + rest;
    } else {
      before := "";
    }
  }

  lemma {:induction false} TrimEndSplits(s: string) returns (after: string)
    ensures AllWhitespace(after) && s == TrimEnd(s) + after
    ensures TrimEnd(s) != "" ==> !IsWhitespace(TrimEnd(s)[|TrimEnd(s)| - 1])
  {
    if s != "" && IsWhitespace(s[|s| - 1]) {
      var rest := TrimEndSplits(s[..|s| - 1]);
      after := rest + [s[|s| - 1]];
    } else {
      after := "";
    }
  }

  /** Trimming takes away white space on both sides, and all of it. */
  lemma TrimSplits(s: string) returns (before: string, after: string)
    ensures AllWhitespace(before) && AllWhitespace(after) && s == before + Trim(s) + after
    ensures Trim(s) != "" ==> !IsWhitespace(Trim(s)[0]) && !IsWhitespace(Trim(s)[|Trim(s)| - 1])
  {
    before := TrimStartSplits(s);
    after := TrimEndSplits(TrimStart(s));
    AppendAssociates(before, Trim(s), after);
    assert Trim(s) != "" ==> Trim(s)[0] == TrimStart(s)[0];
  }

  function NonBlank(s: string): Option<string> {
    if Trim(s) == "" then None else Some(Trim(s))
  }

  // ---------- What a body means, from its last field backwards ----------

  /** A part named `file` carries payload; so does the first nameless one if no payload came before. */
  predicate IsFile(fields: seq<Field>, i: nat)
    requires i < |fields|
  {
    fields[i].name == "file" || (fields[i].name == "" && !HasFile(fields[..i]))
  }

  predicate HasFile(fields: seq<Field>)
    decreases |fields|
  {
    fields != [] && (HasFile(fields[..|fields| - 1]) || fields[|fields| - 1].name == "file" || fields[|fields| - 1].name == "")
  }

  function FieldError(fields: seq<Field>, i: nat): Option<UploadError>
    requires i < |fields|
  {
    var f := fields[i];
    if !IsFile(fields, i) && |f.content| > FIELD_LIMIT then Some(FieldTooLarge(f.name))
    else if f.broken then Some(BadStream)
    else None
  }

  /** The error of the earliest field that has one. */
  function FirstError(fields: seq<Field>): Option<UploadError> {
    if fields == [] then None
    else match FirstError(fields[..|fields| - 1])
      case Some(e) => Some(e)
      case None => FieldError(fields, |fields| - 1)
  }

  /** The bytes of all payload parts, in order. */
  function Payload(fields: seq<Field>): seq<byte> {
    if fields == [] then []
    else
      var n := |fields| - 1;
      Payload(fields[..n]) + (if IsFile(fields, n) then fields[n].content else [])
  }

  /** The length of the last payload part. */
  function FileSize(fields: seq<Field>): Option<nat> {
    if fields == [] then None
    else
      var n := |fields| - 1;
      if IsFile(fields, n) then Some(|fields[n].content|) else FileSize(fields[..n])
  }

  function NonFileText(fields: seq<Field>, i: nat): Option<string>
    requires i < |fields|
  {
    if IsFile(fields, i) then None else Utf8.Decode(fields[i].content)
  }

  /** The last text field of that name which is valid UTF-8. */
  function LastText(fields: seq<Field>, name: string): Option<string> {
    if fields == [] then None
    else
      var n := |fields| - 1;
      if fields[n].name == name && NonFileText(fields, n).Some? then NonFileText(fields, n) else LastText(fields[..n], name)
  }

  /** The last `filename` field that is valid UTF-8 and not blank, trimmed. */
  function FormFilename(fields: seq<Field>): Option<string> {
    if fields == [] then None
    else
      var n := |fields| - 1;
      var text := if fields[n].name == "filename" then NonFileText(fields, n) else None;
      if text.Some? && NonBlank(text.value).Some? then NonBlank(text.value) else FormFilename(fields[..n])
  }

  /** The last file name of a payload part that is not blank, trimmed. */
  function PartFilename(fields: seq<Field>): Option<string> {
    if fields == [] then None
    else
      var n := |fields| - 1;
      if IsFile(fields, n) && fields[n].fileName.Some? && NonBlank(fields[n].fileName.value).Some?
      then NonBlank(fields[n].fileName.value)
      else PartFilename(fields[..n])
  }

  predicate IsExtra(name: string) {
    name != "" && name != "origin" && name != "filename" && name != "extended"
  }

  /** What one text field makes of `extended`: an `extended` object replaces it, other fields add an entry. */
  function NoteExtended(name: string, text: Option<string>, json: ObjectReader, extended: map<string, Json>): map<string, Json> {
    if text.None? then extended
    else if name == "extended" then json(text.value).GetOr(extended)
    else if IsExtra(name) then extended[name := Str(text.value)]
    else extended
  }

  /** `extended` after all fields. */
  function Extended(fields: seq<Field>, json: ObjectReader): map<string, Json> {
    if fields == [] then map[]
    else
      var n := |fields| - 1;
      NoteExtended(fields[n].name, NonFileText(fields, n), json, Extended(fields[..n], json))
  }

  ghost predicate SizesFit(fields: seq<Field>) {
    forall f :: f in fields ==> |f.content| <= U64_MAX
  }

  lemma FileSizeFits(fields: seq<Field>)
    requires SizesFit(fields)
    ensures FileSize(fields).Some? ==> FileSize(fields).value <= U64_MAX
    ensures HasFile(fields) <==> FileSize(fields).Some?
  {
    if fields != [] {
      assert fields[|fields| - 1] in fields;
      FileSizeFits(fields[..|fields| - 1]);
    }
  }

  function MetadataOf(fields: seq<Field>, json: ObjectReader): FileMetadata
    requires SizesFit(fields)
  {
    FileSizeFits(fields);
    FileMetadata(
      if FormFilename(fields).Some? then FormFilename(fields) else PartFilename(fields),
      LastText(fields, "origin"),
      if FileSize(fields).Some? then Some(FileSize(fields).value) else None,
      Extended(fields, json))
  }

  /** The outcome of a body. `tailBroken`: the stream fails where the next field should start. */
  function Outcome(fields: seq<Field>, tailBroken: bool, json: ObjectReader): Result<FileMetadata, UploadError>
    requires SizesFit(fields)
  {
    match FirstError(fields)
    case Some(e) => Err(e)
    case None =>
      if tailBroken then Err(BadStream)
      else if !HasFile(fields) then Err(MissingFile)
      else if MetadataOf(fields, json).filename.None? then Err(MissingFilename)
      else Ok(MetadataOf(fields, json))
  }

  // ---------- The loops ----------

  lemma FlattenTake<T>(pieces: seq<seq<T>>, i: nat)
    requires i < |pieces|
    ensures Flatten(pieces[..i + 1]) == Flatten(pieces[..i]) + pieces[i]
  {
    assert pieces[..i + 1][..i] == pieces[..i];
  }

  lemma FlattenTakePrefix<T>(pieces: seq<seq<T>>, i: nat)
    requires i <= |pieces|
    ensures Flatten(pieces[..i]) <= Flatten(pieces)
  {
    assert pieces == pieces[..i] + pieces[i..];
    FlattenAppend(pieces[..i], pieces[i..]);
  }

  /** What a loop has passed on when its next write fails is still a prefix of the whole. */
  ghost predicate Between<T>(before: seq<T>, now: seq<T>, all: seq<T>) {
    before <= now <= before + all
  }

  lemma BetweenGrows<T>(before: seq<T>, now: seq<T>, part: seq<T>, all: seq<T>)
    requires Between(before, now, part) && part <= all
    ensures Between(before, now, all)
  {
    assert before + part <= before + all;
  }

  lemma BetweenAfter<T>(before: seq<T>, done: seq<T>, now: seq<T>, chunk: seq<T>)
    requires Between(before + done, now, chunk)
    ensures Between(before, now, done + chunk)
  {
    AppendAssociates(before, done, chunk);
    assert before <= before + done;
  }

  /** The chunk loop of a payload part: everything is passed on, and counted. */
  method CopyFile(p: Part, w: Sink) returns (r: Result<nat, CoreError>)
    modifies w
    ensures r.Ok? ==> w.bytes == old(w.bytes) + Whole(p).content && r.value == |Whole(p).content|
    ensures Between(old(w.bytes), w.bytes, Whole(p).content)
    ensures r.Err? ==> w.faulty
  {
    var written := 0;
    for i := 0 to |p.chunks|
      invariant w.bytes == old(w.bytes) + Flatten(p.chunks[..i])
      invariant written == |Flatten(p.chunks[..i])|
    {
      FlattenTake(p.chunks, i);
      written := written + |p.chunks[i]|;
      AppendAssociates(old(w.bytes), Flatten(p.chunks[..i]), p.chunks[i]);
      var put := w.WriteAll(p.chunks[i]);
      if put.Err? {
        BetweenAfter(old(w.bytes), Flatten(p.chunks[..i]), w.bytes, p.chunks[i]);
        FlattenTakePrefix(p.chunks, i + 1);
        BetweenGrows(old(w.bytes), w.bytes, Flatten(p.chunks[..i + 1]), Flatten(p.chunks));
        return Err(put.error);
      }
    }
    assert p.chunks[..|p.chunks|] == p.chunks;
    return Ok(written);
  }

  /** The chunk loop of a text part: it gives up exactly when the whole part exceeds the limit. */
  method ReadText(p: Part) returns (overflow: bool, textBytes: seq<byte>)
    ensures overflow <==> |Whole(p).content| > FIELD_LIMIT
    ensures !overflow ==> textBytes == Whole(p).content
  {
    textBytes, overflow := [], false;
    for i := 0 to |p.chunks|
      invariant textBytes == Flatten(p.chunks[..i]) && |textBytes| <= FIELD_LIMIT && !overflow
    {
      FlattenTake(p.chunks, i);
      if |textBytes| + |p.chunks[i]| > FIELD_LIMIT {
        FlattenTakePrefix(p.chunks, i + 1);
        overflow := true;
        return;
      }
      textBytes := textBytes + p.chunks[i];
    }
    assert p.chunks[..|p.chunks|] == p.chunks;
  }

  lemma {:induction false} ErrorPersists(fields: seq<Field>, n: nat)
    requires n <= |fields| && FirstError(fields[..n]).Some?
    ensures FirstError(fields) == FirstError(fields[..n])
    decreases |fields|
  {
    if n < |fields| {
      var init := fields[..|fields| - 1];
      assert init[..n] == fields[..n];
      ErrorPersists(init, n);
    } else {
      assert fields[..n] == fields;
    }
  }

  /** The mutable locals of the field loop hold what the fields read so far mean. */
  ghost predicate Tracks(fields: seq<Field>, json: ObjectReader, foundFile: bool, fileSize: Option<nat>,
                         origin: Option<string>, extended: map<string, Json>,
                         formFilename: Option<string>, partFilename: Option<string>)
  {
    && foundFile == HasFile(fields)
    && fileSize == FileSize(fields)
    && origin == LastText(fields, "origin")
    && extended == Extended(fields, json)
    && formFilename == FormFilename(fields)
    && partFilename == PartFilename(fields)
  }

  /** Reading one more payload part. */
  lemma TracksFile(fields: seq<Field>, json: ObjectReader, foundFile: bool, fileSize: Option<nat>, origin: Option<string>,
                   extended: map<string, Json>, formFilename: Option<string>, partFilename: Option<string>)
    requires fields != [] && IsFile(fields, |fields| - 1)
    requires Tracks(fields[..|fields| - 1], json, foundFile, fileSize, origin, extended, formFilename, partFilename)
    ensures var f := fields[|fields| - 1];
            var named := f.fileName.Some? && NonBlank(f.fileName.value).Some?;
            Tracks(fields, json, true, Some(|f.content|), origin, extended, formFilename,
                   if named then NonBlank(f.fileName.value) else partFilename)
    ensures Payload(fields) == Payload(fields[..|fields| - 1]) + fields[|fields| - 1].content
  {}

  function NoteOrigin(name: string, text: Option<string>, origin: Option<string>): Option<string> {
    if text.Some? && name == "origin" then text else origin
  }

  function NoteFilename(name: string, text: Option<string>, formFilename: Option<string>): Option<string> {
    if text.Some? && name == "filename" && NonBlank(text.value).Some? then NonBlank(text.value) else formFilename
  }

  /** A text part adds nothing to the payload parts. */
  lemma TextIsNoFile(fields: seq<Field>)
    requires fields != [] && !IsFile(fields, |fields| - 1)
    ensures var before := fields[..|fields| - 1];
            && HasFile(fields) == HasFile(before) && FileSize(fields) == FileSize(before)
            && PartFilename(fields) == PartFilename(before) && Payload(fields) == Payload(before)
  {}

  lemma TextSetsOrigin(fields: seq<Field>, text: Option<string>)
    requires fields != [] && NonFileText(fields, |fields| - 1) == text
    ensures LastText(fields, "origin") == NoteOrigin(fields[|fields| - 1].name, text, LastText(fields[..|fields| - 1], "origin"))
  {}

  lemma TextSetsFilename(fields: seq<Field>, text: Option<string>)
    requires fields != [] && NonFileText(fields, |fields| - 1) == text
    ensures FormFilename(fields) == NoteFilename(fields[|fields| - 1].name, text, FormFilename(fields[..|fields| - 1]))
  {}

  /** Reading one more text part; `text` is its content if that is valid UTF-8. */
  lemma TracksText(fields: seq<Field>, json: ObjectReader, foundFile: bool, fileSize: Option<nat>, origin: Option<string>,
                   extended: map<string, Json>, formFilename: Option<string>, partFilename: Option<string>, text: Option<string>)
    requires fields != [] && !IsFile(fields, |fields| - 1) && text == Utf8.Decode(fields[|fields| - 1].content)
    requires Tracks(fields[..|fields| - 1], json, foundFile, fileSize, origin, extended, formFilename, partFilename)
    ensures var name := fields[|fields| - 1].name;
            Tracks(fields, json, foundFile, fileSize, NoteOrigin(name, text, origin), NoteExtended(name, text, json, extended),
                   NoteFilename(name, text, formFilename), partFilename)
    ensures Payload(fields) == Payload(fields[..|fields| - 1])
  {
    TextIsNoFile(fields);
    TextSetsOrigin(fields, text);
    TextSetsFilename(fields, text);
  }

  /** What a text field changes: the chain of cases on its name. */
  method NoteText(fieldName: string, text: string, json: ObjectReader, origin0: Option<string>, form0: Option<string>,
                  extended0: map<string, Json>)
    returns (origin: Option<string>, formFilename: Option<string>, extended: map<string, Json>)
    ensures origin == NoteOrigin(fieldName, Some(text), origin0)
    ensures formFilename == NoteFilename(fieldName, Some(text), form0)
    ensures extended == NoteExtended(fieldName, Some(text), json, extended0)
  {
    origin, formFilename, extended := origin0, form0, extended0;
    if fieldName == "origin" {
      origin := Some(text);
    } else if fieldName == "filename" {
      if NonBlank(text).Some? {
        formFilename := NonBlank(text);
      }
    } else if fieldName == "extended" {
      var extMap := json(text);
      if extMap.Some? {
        extended := extMap.value;
      }
    } else if fieldName != "" {
      extended := extended[fieldName := Str(text)];
    }
  }

  /** The branch of the field loop that reads a payload part; `fields` ends with that part. */
  method ReadFileField(field: Part, w: Sink, json: ObjectReader, partFilename0: Option<string>,
                       ghost fields: seq<Field>, ghost foundFile: bool, ghost fileSize0: Option<nat>,
                       ghost origin: Option<string>, ghost extended: map<string, Json>, ghost formFilename: Option<string>)
    returns (error: Option<UploadError>, fileSize: Option<nat>, partFilename: Option<string>)
    requires fields != [] && fields[|fields| - 1] == Whole(field) && IsFile(fields, |fields| - 1)
    requires Tracks(fields[..|fields| - 1], json, foundFile, fileSize0, origin, extended, formFilename, partFilename0)
    modifies w
    ensures (w.faulty && error == Some(WriteFailed)) || error == FieldError(fields, |fields| - 1)
    ensures error == None ==> Tracks(fields, json, true, fileSize, origin, extended, formFilename, partFilename)
    ensures error == None ==> w.bytes == old(w.bytes) + Whole(field).content
    ensures Between(old(w.bytes), w.bytes, Whole(field).content)
    ensures Payload(fields) == Payload(fields[..|fields| - 1]) + Whole(field).content
  {
    TracksFile(fields, json, foundFile, fileSize0, origin, extended, formFilename, partFilename0);
    partFilename, error := partFilename0, None;
    if field.fileName.Some? && NonBlank(field.fileName.value).Some? {
      partFilename := NonBlank(field.fileName.value);
    }
    fileSize := None;
    var written := CopyFile(field, w);
    if written.Err? {
      error := Some(WriteFailed);
      return;
    }
    fileSize := Some(written.value);
    if field.broken {
      error := Some(BadStream);
    }
  }

  /** The branch of the field loop that reads a text part; `fields` ends with that part. */
  method ReadTextField(field: Part, json: ObjectReader, origin0: Option<string>, form0: Option<string>,
                       extended0: map<string, Json>, ghost fields: seq<Field>, ghost foundFile: bool,
                       ghost fileSize: Option<nat>, ghost partFilename: Option<string>)
    returns (error: Option<UploadError>, origin: Option<string>, formFilename: Option<string>, extended: map<string, Json>)
    requires fields != [] && fields[|fields| - 1] == Whole(field) && !IsFile(fields, |fields| - 1)
    requires Tracks(fields[..|fields| - 1], json, foundFile, fileSize, origin0, extended0, form0, partFilename)
    ensures error == FieldError(fields, |fields| - 1)
    ensures error == None ==> Tracks(fields, json, foundFile, fileSize, origin, extended, formFilename, partFilename)
    ensures Payload(fields) == Payload(fields[..|fields| - 1])
  {
    var fieldName := field.name.GetOr("");
    origin, formFilename, extended := origin0, form0, extended0;
    var overflow, textBytes := ReadText(field);
    TracksText(fields, json, foundFile, fileSize, origin, extended, formFilename, partFilename, Utf8.Decode(Whole(field).content));
    if overflow {
      return Some(FieldTooLarge(fieldName)), origin, formFilename, extended;
    }
    if field.broken {
      return Some(BadStream), origin, formFilename, extended;
    }
    error := None;
    var decoded := Utf8.Decode(textBytes);
    if decoded.Some? {
      origin, formFilename, extended := NoteText(fieldName, decoded.value, json, origin, formFilename, extended);
    }
  }

  lemma ErrorAt(fields: seq<Field>, i: nat)
    requires i < |fields| && FirstError(fields[..i]).None?
    ensures IsFile(fields[..i + 1], i) == IsFile(fields, i)
    ensures FirstError(fields[..i + 1]) == FieldError(fields, i)
    ensures FieldError(fields, i).Some? ==> FirstError(fields) == FieldError(fields, i)
  {
    var upTo := fields[..i + 1];
    assert upTo[..i] == fields[..i];
    if FieldError(fields, i).Some? {
      ErrorPersists(fields, i + 1);
    }
  }

  /** The checks after the field loop. */
  method Conclude(foundFile: bool, fileSize: Option<nat>, origin: Option<string>, extended: map<string, Json>,
                  formFilename: Option<string>, partFilename: Option<string>, ghost fields: seq<Field>, ghost json: ObjectReader)
    returns (r: Result<FileMetadata, UploadError>)
    requires SizesFit(fields) && FirstError(fields).None?
    requires Tracks(fields, json, foundFile, fileSize, origin, extended, formFilename, partFilename)
    ensures r == Outcome(fields, false, json)
  {
    if !foundFile {
      return Err(MissingFile);
    }
    FileSizeFits(fields);
    var filename := if formFilename.Some? then formFilename else partFilename;
    if filename.None? {
      return Err(MissingFilename);
    }
    return Ok(FileMetadata(filename, origin, if fileSize.Some? then Some(fileSize.value) else None, extended));
  }

  lemma {:induction false} PayloadGrows(fields: seq<Field>, n: nat)
    requires n <= |fields|
    ensures Payload(fields[..n]) <= Payload(fields)
    decreases |fields|
  {
    if n < |fields| {
      var init := fields[..|fields| - 1];
      assert init[..n] == fields[..n];
      PayloadGrows(init, n);
    } else {
      assert fields[..n] == fields;
    }
  }

  /** Where a payload part is broken off, what has been written is a prefix of the whole payload. */
  lemma StoppedInside(fields: seq<Field>, i: nat, before: seq<byte>, now: seq<byte>, content: seq<byte>)
    requires i < |fields| && Between(before + Payload(fields[..i]), now, content)
    requires Payload(fields[..i + 1]) == Payload(fields[..i]) + content
    ensures Between(before, now, Payload(fields))
  {
    BetweenAfter(before, Payload(fields[..i]), now, content);
    PayloadGrows(fields, i + 1);
    BetweenGrows(before, now, Payload(fields[..i + 1]), Payload(fields));
  }

  /** The field loop of handle_multipart_upload. */
  method ReadFields(parts: seq<Part>, json: ObjectReader, w: Sink, ghost fields: seq<Field>)
    returns (error: Option<UploadError>, foundFile: bool, fileSize: Option<nat>, origin: Option<string>,
             extended: map<string, Json>, formFilename: Option<string>, multipartFileName: Option<string>)
    requires fields == WholeAll(parts)
    modifies w
    ensures (w.faulty && error == Some(WriteFailed)) || error == FirstError(fields)
    ensures error == None ==> Tracks(fields, json, foundFile, fileSize, origin, extended, formFilename, multipartFileName)
    ensures error == None ==> FirstError(fields) == None && w.bytes == old(w.bytes) + Payload(fields)
    ensures Between(old(w.bytes), w.bytes, Payload(fields))
  {
    error, foundFile, fileSize, origin, extended := None, false, None, None, map[];
    formFilename, multipartFileName := None, None;
    for i := 0 to |parts|
      invariant error == None
      invariant Tracks(fields[..i], json, foundFile, fileSize, origin, extended, formFilename, multipartFileName)
      invariant FirstError(fields[..i]).None?
      invariant w.bytes == old(w.bytes) + Payload(fields[..i])
    {
      var field := parts[i];
      var fieldName := field.name.GetOr("");
      ghost var upTo := fields[..i + 1];
      assert upTo[..i] == fields[..i] && upTo[i] == Whole(field) && |upTo| == i + 1;
      ErrorAt(fields, i);
      if fieldName == "file" || (fieldName == "" && !foundFile) {
        error, fileSize, multipartFileName :=
          ReadFileField(field, w, json, multipartFileName, upTo, foundFile, fileSize, origin, extended, formFilename);
        foundFile := true;
        if error.Some? {
          StoppedInside(fields, i, old(w.bytes), w.bytes, Whole(field).content);
          return;
        }
        AppendAssociates(old(w.bytes), Payload(upTo[..i]), Whole(field).content);
      } else {
        error, origin, formFilename, extended :=
          ReadTextField(field, json, origin, formFilename, extended, upTo, foundFile, fileSize, multipartFileName);
        if error.Some? {
          PayloadGrows(fields, i);
          return;
        }
      }
    }
    assert fields[..|parts|] == fields;
  }

  /** handle_multipart_upload. */
  method HandleMultipart(parts: seq<Part>, tailBroken: bool, json: ObjectReader, w: Sink)
    returns (r: Result<FileMetadata, UploadError>)
    requires SizesFit(WholeAll(parts))
    modifies w
    ensures (w.faulty && r == Err(WriteFailed)) || r == Outcome(WholeAll(parts), tailBroken, json)
    ensures r.Ok? ==> w.bytes == old(w.bytes) + Payload(WholeAll(parts))
    ensures Between(old(w.bytes), w.bytes, Payload(WholeAll(parts)))
  {
    ghost var fields := WholeAll(parts);
    var error, foundFile, fileSize, origin, extended, formFilename, multipartFileName := ReadFields(parts, json, w, fields);
    if error.Some? {
      return Err(error.value);
    }
    if tailBroken {
      return Err(BadStream);
    }
    r := Conclude(foundFile, fileSize, origin, extended, formFilename, multipartFileName, fields, json);
  }

  /** Chunk boundaries do not matter: two bodies with the same fields have the same outcome, the same
      metadata and, if they are accepted, the same payload. */
  method ChunkingDoesNotMatter(parts1: seq<Part>, parts2: seq<Part>, tailBroken: bool, json: ObjectReader)
    returns (r1: Result<FileMetadata, UploadError>, r2: Result<FileMetadata, UploadError>, out1: seq<byte>, out2: seq<byte>)
    requires WholeAll(parts1) == WholeAll(parts2) && SizesFit(WholeAll(parts1))
    ensures r1 == r2
    ensures r1.Ok? ==> out1 == out2
  {
    var w1 := new Sink(false);
    r1 := HandleMultipart(parts1, tailBroken, json, w1);
    var w2 := new Sink(false);
    r2 := HandleMultipart(parts2, tailBroken, json, w2);
    out1, out2 := w1.bytes, w2.bytes;
  }

  // ---------- What the outcome says ----------

  /** No field before `i` is nameless or called `file`. */
  predicate NoFileBefore(fields: seq<Field>, i: nat)
    requires i <= |fields|
  {
    forall j :: 0 <= j < i ==> fields[j].name != "" && fields[j].name != "file"
  }

  /** A payload part is one called `file`, or the nameless one that comes before all of these. */
  lemma {:induction false} WhichFieldsAreFiles(fields: seq<Field>, i: nat)
    requires i < |fields|
    ensures IsFile(fields, i) <==> fields[i].name == "file" || (fields[i].name == "" && NoFileBefore(fields, i))
    ensures HasFile(fields[..i]) <==> !NoFileBefore(fields, i)
  {
    if i > 0 {
      WhichFieldsAreFiles(fields, i - 1);
      assert fields[..i][..i - 1] == fields[..i - 1];
    }
  }

  /** The body fails exactly when some field is broken, or is no payload and exceeds 64 KiB; the
      earliest such field decides. */
  lemma {:induction false} EarliestErrorDecides(fields: seq<Field>, e: UploadError)
    ensures FirstError(fields) == Some(e) <==>
            exists i :: 0 <= i < |fields| && FieldError(fields, i) == Some(e) && forall j :: 0 <= j < i ==> FieldError(fields, j) == None
    ensures FirstError(fields) == None <==> forall i :: 0 <= i < |fields| ==> FieldError(fields, i) == None
  {
    if fields != [] {
      var n := |fields| - 1;
      var init := fields[..n];
      EarliestErrorDecides(init, e);
      forall j | 0 <= j < n ensures FieldError(init, j) == FieldError(fields, j) {
        assert init[..j] == fields[..j];
      }
    }
  }

  /** The last field that sets an entry of `extended` decides it: an object sets every key at once. */
  predicate Touches(fields: seq<Field>, i: nat, json: ObjectReader, key: string)
    requires i < |fields|
  {
    && NonFileText(fields, i).Some?
    && (if fields[i].name == "extended" then json(NonFileText(fields, i).value).Some?
        else IsExtra(fields[i].name) && fields[i].name == key)
  }

  function Lookup(m: map<string, Json>, key: string): Option<Json> {
    if key in m then Some(m[key]) else None
  }

  /** What field `i` sets `key` to; an object without the key removes it. */
  function Sets(fields: seq<Field>, i: nat, json: ObjectReader, key: string): Option<Json>
    requires i < |fields| && Touches(fields, i, json, key)
  {
    var text := NonFileText(fields, i).value;
    if fields[i].name == "extended" then Lookup(json(text).value, key) else Some(Str(text))
  }

  lemma {:induction false} LastTouchDecides(fields: seq<Field>, json: ObjectReader, key: string, i: nat)
    requires i < |fields| && Touches(fields, i, json, key)
    requires forall j :: i < j < |fields| ==> !Touches(fields, j, json, key)
    ensures Lookup(Extended(fields, json), key) == Sets(fields, i, json, key)
  {
    var n := |fields| - 1;
    if i < n {
      var init := fields[..n];
      forall j | 0 <= j < n ensures Touches(init, j, json, key) == Touches(fields, j, json, key) {
        assert init[..j] == fields[..j];
      }
      assert init[..i] == fields[..i];
      LastTouchDecides(init, json, key, i);
      assert !Touches(fields, n, json, key);
    }
  }

  lemma {:induction false} UntouchedIsAbsent(fields: seq<Field>, json: ObjectReader, key: string)
    requires forall j :: 0 <= j < |fields| ==> !Touches(fields, j, json, key)
    ensures key !in Extended(fields, json)
  {
    if fields != [] {
      var n := |fields| - 1;
      var init := fields[..n];
      forall j | 0 <= j < n ensures !Touches(init, j, json, key) {
        assert init[..j] == fields[..j];
        assert !Touches(fields, j, json, key);
      }
      UntouchedIsAbsent(init, json, key);
      assert !Touches(fields, n, json, key);
    }
  }

  // ---------- Which names count ----------

  /** The name that field `i` proposes for the file: a `filename` field that is valid UTF-8 and not blank. */
  function FormCandidate(fields: seq<Field>, i: nat): Option<string>
    requires i < |fields|
  {
    if fields[i].name != "filename" then None
    else match NonFileText(fields, i) case None => None case Some(text) => NonBlank(text)
  }

  /** The name that field `i` carries as a payload part. */
  function PartCandidate(fields: seq<Field>, i: nat): Option<string>
    requires i < |fields|
  {
    if !IsFile(fields, i) || fields[i].fileName.None? then None else NonBlank(fields[i].fileName.value)
  }

  function LastSome(candidates: seq<Option<string>>): Option<string> {
    if candidates == [] then None
    else
      var n := |candidates| - 1;
      if candidates[n].Some? then candidates[n] else LastSome(candidates[..n])
  }

  lemma {:induction false} LastSomeIs(candidates: seq<Option<string>>, name: string)
    ensures LastSome(candidates) == Some(name) <==>
            exists i :: 0 <= i < |candidates| && candidates[i] == Some(name)
                        && forall j :: i < j < |candidates| ==> candidates[j] == None
    ensures LastSome(candidates) == None <==> forall i :: 0 <= i < |candidates| ==> candidates[i] == None
  {
    if candidates != [] {
      LastSomeIs(candidates[..|candidates| - 1], name);
    }
  }

  function FormCandidates(fields: seq<Field>): seq<Option<string>> {
    seq(|fields|, i requires 0 <= i < |fields| => FormCandidate(fields, i))
  }

  function PartCandidates(fields: seq<Field>): seq<Option<string>> {
    seq(|fields|, i requires 0 <= i < |fields| => PartCandidate(fields, i))
  }

  lemma CandidatesPrefix(fields: seq<Field>)
    requires fields != []
    ensures var n := |fields| - 1;
            FormCandidates(fields)[..n] == FormCandidates(fields[..n]) && PartCandidates(fields)[..n] == PartCandidates(fields[..n])
  {
    var n := |fields| - 1;
    forall j | 0 <= j < n
      ensures FormCandidate(fields[..n], j) == FormCandidate(fields, j) && PartCandidate(fields[..n], j) == PartCandidate(fields, j)
    {
      assert fields[..n][..j] == fields[..j];
    }
  }

  /** The last candidate among the form fields wins. */
  lemma {:induction false} LastFormNameWins(fields: seq<Field>)
    ensures FormFilename(fields) == LastSome(FormCandidates(fields))
  {
    if fields != [] {
      CandidatesPrefix(fields);
      LastFormNameWins(fields[..|fields| - 1]);
    }
  }

  /** The last candidate among the payload parts wins. */
  lemma {:induction false} LastPartNameWins(fields: seq<Field>)
    ensures PartFilename(fields) == LastSome(PartCandidates(fields))
  {
    if fields != [] {
      CandidatesPrefix(fields);
      LastPartNameWins(fields[..|fields| - 1]);
    }
  }

  /** A body is accepted exactly if no field is broken or too large, the stream ends well, some part
      carries payload, and some field or part proposes a name. */
  lemma AcceptedIff(fields: seq<Field>, tailBroken: bool, json: ObjectReader)
    requires SizesFit(fields)
    ensures Outcome(fields, tailBroken, json).Ok? <==>
            && (forall i :: 0 <= i < |fields| ==> FieldError(fields, i) == None)
            && !tailBroken
            && (exists i :: 0 <= i < |fields| && IsFile(fields, i))
            && (exists i :: 0 <= i < |fields| && (FormCandidate(fields, i).Some? || PartCandidate(fields, i).Some?))
  {
    EarliestErrorDecides(fields, BadStream);
    SomeFile(fields);
    LastFormNameWins(fields);
    LastPartNameWins(fields);
    LastSomeIs(FormCandidates(fields), "");
    LastSomeIs(PartCandidates(fields), "");
    assert forall i :: 0 <= i < |fields| ==>
             FormCandidates(fields)[i] == FormCandidate(fields, i) && PartCandidates(fields)[i] == PartCandidate(fields, i);
  }

  lemma {:induction false} SomeFile(fields: seq<Field>)
    ensures HasFile(fields) <==> exists i :: 0 <= i < |fields| && IsFile(fields, i)
  {
    if fields != [] {
      var n := |fields| - 1;
      SomeFile(fields[..n]);
      FilePrefix(fields);
      if HasFile(fields[..n]) {
        var i :| 0 <= i < n && IsFile(fields[..n], i);
        assert IsFile(fields, i);
      } else {
        forall i | 0 <= i < n ensures !IsFile(fields, i) {
          assert IsFile(fields[..n], i) == IsFile(fields, i);
        }
      }
      assert HasFile(fields) && !HasFile(fields[..n]) ==> IsFile(fields, n);
    }
  }

  /** Every payload part but the last is empty. */
  predicate OnlyLastFileHasBytes(fields: seq<Field>)
  {
    forall i, j :: 0 <= i < j < |fields| && IsFile(fields, i) && IsFile(fields, j) ==> fields[i].content == []
  }

  lemma {:induction false} FilePrefix(fields: seq<Field>)
    requires fields != []
    ensures forall i :: 0 <= i < |fields| - 1 ==> IsFile(fields[..|fields| - 1], i) == IsFile(fields, i)
  {
    forall i | 0 <= i < |fields| - 1 ensures IsFile(fields[..|fields| - 1], i) == IsFile(fields, i) {
      assert fields[..|fields| - 1][..i] == fields[..i];
    }
  }

  lemma {:induction false} EmptyPayload(fields: seq<Field>)
    ensures Payload(fields) == [] <==> forall i :: 0 <= i < |fields| && IsFile(fields, i) ==> fields[i].content == []
  {
    if fields != [] {
      FilePrefix(fields);
      EmptyPayload(fields[..|fields| - 1]);
    }
  }

  lemma OnlyLastStep(fields: seq<Field>)
    requires fields != []
    ensures var n := |fields| - 1;
            OnlyLastFileHasBytes(fields) <==>
            OnlyLastFileHasBytes(fields[..n])
            && (IsFile(fields, n) ==> forall i :: 0 <= i < n && IsFile(fields[..n], i) ==> fields[..n][i].content == [])
  {
    FilePrefix(fields);
    var n := |fields| - 1;
    var init := fields[..n];
    if OnlyLastFileHasBytes(fields) {
      forall i, j | 0 <= i < j < n && IsFile(init, i) && IsFile(init, j) ensures init[i].content == [] {
        assert IsFile(fields, i) && IsFile(fields, j);
      }
    } else {
      var i, j :| 0 <= i < j < |fields| && IsFile(fields, i) && IsFile(fields, j) && fields[i].content != [];
      assert IsFile(init, i) && init[i].content != [];
      assert j < n ==> IsFile(init, j);
    }
  }

  /** The recorded size is the payload length exactly when all payload parts but the last are empty;
      in particular with exactly one payload part. */
  lemma {:induction false} SizeIsPayloadLengthIff(fields: seq<Field>)
    requires HasFile(fields)
    ensures FileSize(fields) == Some(|Payload(fields)|) <==> OnlyLastFileHasBytes(fields)
  {
    var n := |fields| - 1;
    var init := fields[..n];
    OnlyLastStep(fields);
    EmptyPayload(init);
    if IsFile(fields, n) {
      assert |Payload(fields)| == |Payload(init)| + |fields[n].content|;
    } else {
      SizeIsPayloadLengthIff(init);
    }
  }
}
