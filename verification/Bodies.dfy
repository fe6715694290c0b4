/**
 What an upload body means, field by field and without the functions that the loops are proved against:
 which fields carry payload, which name wins, where the other entries come from, and which error decides.
 */
module Bodies {
  import opened Prelude
  import opened Metadata
  import opened Multipart
  import Utf8

  /** The part is called `file`, or is nameless with no such part and no nameless one before it. */
  ghost predicate CarriesPayload(fields: seq<Field>, i: nat)
    requires i < |fields|
  {
    fields[i].name == "file" || (fields[i].name == "" && forall j :: 0 <= j < i ==> fields[j].name != "" && fields[j].name != "file")
  }

  /** Any other field, with this text in UTF-8. */
  ghost predicate Says(fields: seq<Field>, i: nat, text: string)
    requires i < |fields|
  {
    !CarriesPayload(fields, i) && fields[i].content == Utf8.Encode(text)
  }

  lemma FileIff(fields: seq<Field>, i: nat)
    requires i < |fields|
    ensures IsFile(fields, i) <==> CarriesPayload(fields, i)
  {
    WhichFieldsAreFiles(fields, i);
  }

  lemma SaysIff(fields: seq<Field>, i: nat, text: string)
    requires i < |fields|
    ensures NonFileText(fields, i) == Some(text) <==> Says(fields, i, text)
  {
    FileIff(fields, i);
    Utf8.DecodeIff(fields[i].content, text);
  }

  // ---------- Trimming ----------

  /** The characters of the Unicode property White_Space. */
  const WHITE_SPACE: set<char> :=
    {'\U{9}', '\U{A}', '\U{B}', '\U{C}', '\U{D}', ' ', '\U{85}', '\U{A0}', '\U{1680}',
     '\U{2000}', '\U{2001}', '\U{2002}', '\U{2003}', '\U{2004}', '\U{2005}', '\U{2006}', '\U{2007}', '\U{2008}', '\U{2009}',
     '\U{200A}', '\U{2028}', '\U{2029}', '\U{202F}', '\U{205F}', '\U{3000}'}

  lemma WhitespaceIff(c: char)
    ensures IsWhitespace(c) <==> c in WHITE_SPACE
  {}

  /** `text` is `name` between white space, and `name` is not empty and has none at its ends. */
  ghost predicate IsTrimmed(text: string, name: string) {
    && name != "" && !IsWhitespace(name[0]) && !IsWhitespace(name[|name| - 1])
    && exists before, after :: AllWhitespace(before) && AllWhitespace(after) && text == before + name + after
  }

  lemma {:induction false} TrimStartOf(before: string, rest: string)
    requires AllWhitespace(before) && rest != "" && !IsWhitespace(rest[0])
    ensures TrimStart(before + rest) == rest
  {
    if before == "" {
      assert before + rest == rest;
    } else {
      assert (before + rest)[1..] == before[1..] + rest;
      TrimStartOf(before[1..], rest);
    }
  }

  lemma {:induction false} TrimEndOf(rest: string, after: string)
    requires AllWhitespace(after) && rest != "" && !IsWhitespace(rest[|rest| - 1])
    ensures TrimEnd(rest + after) == rest
  {
    if after == "" {
      assert rest + after == rest;
    } else {
      var n := |after| - 1;
      assert (rest + after)[..|rest + after| - 1] == rest + after[..n];
      TrimEndOf(rest, after[..n]);
    }
  }

  lemma NonBlankIff(text: string, name: string)
    ensures NonBlank(text) == Some(name) <==> IsTrimmed(text, name)
  {
    if NonBlank(text) == Some(name) {
      var before, after := TrimSplits(text);
    }
    if IsTrimmed(text, name) {
      var before, after :| AllWhitespace(before) && AllWhitespace(after) && text == before + name + after;
      AppendAssociates(before, name, after);
      TrimStartOf(before, name + after);
      TrimEndOf(name, after);
    }
  }

  // ---------- Which name wins ----------

  /** Field `i` is a form field `filename` that proposes this name. */
  ghost predicate FormProposes(fields: seq<Field>, i: nat, name: string)
    requires i < |fields|
  {
    fields[i].name == "filename" && exists text :: Says(fields, i, text) && IsTrimmed(text, name)
  }

  /** Field `i` is a payload part that carries this name. */
  ghost predicate PartProposes(fields: seq<Field>, i: nat, name: string)
    requires i < |fields|
  {
    CarriesPayload(fields, i) && fields[i].fileName.Some? && IsTrimmed(fields[i].fileName.value, name)
  }

  ghost predicate IsLastForm(fields: seq<Field>, name: string) {
    exists i :: 0 <= i < |fields| && FormProposes(fields, i, name) && NoFormFrom(fields, i + 1)
  }

  ghost predicate NoFormFrom(fields: seq<Field>, n: nat) {
    forall j :: n <= j < |fields| ==> !AnyForm(fields, j)
  }

  ghost predicate AnyForm(fields: seq<Field>, i: nat)
    requires i < |fields|
  {
    exists name :: FormProposes(fields, i, name)
  }

  ghost predicate IsLastPart(fields: seq<Field>, name: string) {
    exists i :: 0 <= i < |fields| && PartProposes(fields, i, name) && NoPartFrom(fields, i + 1)
  }

  ghost predicate NoPartFrom(fields: seq<Field>, n: nat) {
    forall j :: n <= j < |fields| ==> !AnyPart(fields, j)
  }

  ghost predicate AnyPart(fields: seq<Field>, i: nat)
    requires i < |fields|
  {
    exists name :: PartProposes(fields, i, name)
  }

  lemma FormCandidateIff(fields: seq<Field>, i: nat, name: string)
    requires i < |fields|
    ensures FormCandidate(fields, i) == Some(name) <==> FormProposes(fields, i, name)
  {
    if FormCandidate(fields, i) == Some(name) {
      var text := NonFileText(fields, i).value;
      SaysIff(fields, i, text);
      NonBlankIff(text, name);
    }
    if FormProposes(fields, i, name) {
      var text :| Says(fields, i, text) && IsTrimmed(text, name);
      SaysIff(fields, i, text);
      NonBlankIff(text, name);
    }
  }

  lemma PartCandidateIff(fields: seq<Field>, i: nat, name: string)
    requires i < |fields|
    ensures PartCandidate(fields, i) == Some(name) <==> PartProposes(fields, i, name)
  {
    FileIff(fields, i);
    if fields[i].fileName.Some? { NonBlankIff(fields[i].fileName.value, name); }
  }

  lemma AnyFormIff(fields: seq<Field>, j: nat)
    requires j < |fields|
    ensures AnyForm(fields, j) <==> FormCandidate(fields, j).Some?
  {
    forall other ensures FormCandidate(fields, j) == Some(other) <==> FormProposes(fields, j, other) { FormCandidateIff(fields, j, other); }
    if FormCandidate(fields, j).Some? { assert FormProposes(fields, j, FormCandidate(fields, j).value); }
  }

  lemma NoFormIff(fields: seq<Field>, n: nat)
    ensures NoFormFrom(fields, n) <==> forall j :: n <= j < |fields| ==> FormCandidate(fields, j) == None
  {
    forall j | n <= j < |fields| ensures AnyForm(fields, j) <==> FormCandidate(fields, j).Some? { AnyFormIff(fields, j); }
  }

  lemma AnyPartIff(fields: seq<Field>, j: nat)
    requires j < |fields|
    ensures AnyPart(fields, j) <==> PartCandidate(fields, j).Some?
  {
    forall other ensures PartCandidate(fields, j) == Some(other) <==> PartProposes(fields, j, other) { PartCandidateIff(fields, j, other); }
    if PartCandidate(fields, j).Some? { assert PartProposes(fields, j, PartCandidate(fields, j).value); }
  }

  lemma NoPartIff(fields: seq<Field>, n: nat)
    ensures NoPartFrom(fields, n) <==> forall j :: n <= j < |fields| ==> PartCandidate(fields, j) == None
  {
    forall j | n <= j < |fields| ensures AnyPart(fields, j) <==> PartCandidate(fields, j).Some? { AnyPartIff(fields, j); }
  }

  lemma FormFilenameIff(fields: seq<Field>, name: string)
    ensures FormFilename(fields) == Some(name) <==> IsLastForm(fields, name)
    ensures FormFilename(fields) == None <==> NoFormFrom(fields, 0)
  {
    var all := FormCandidates(fields);
    LastFormNameWins(fields);
    LastSomeIs(all, name);
    NoFormIff(fields, 0);
    assert forall i :: 0 <= i < |fields| ==> all[i] == FormCandidate(fields, i);
    forall i | 0 <= i < |fields|
      ensures FormProposes(fields, i, name) && NoFormFrom(fields, i + 1) <==>
              all[i] == Some(name) && forall j :: i < j < |all| ==> all[j] == None
    {
      FormCandidateIff(fields, i, name);
      NoFormIff(fields, i + 1);
    }
  }

  lemma PartFilenameIff(fields: seq<Field>, name: string)
    ensures PartFilename(fields) == Some(name) <==> IsLastPart(fields, name)
    ensures PartFilename(fields) == None <==> NoPartFrom(fields, 0)
  {
    var all := PartCandidates(fields);
    LastPartNameWins(fields);
    LastSomeIs(all, name);
    NoPartIff(fields, 0);
    assert forall i :: 0 <= i < |fields| ==> all[i] == PartCandidate(fields, i);
    forall i | 0 <= i < |fields|
      ensures PartProposes(fields, i, name) && NoPartFrom(fields, i + 1) <==>
              all[i] == Some(name) && forall j :: i < j < |all| ==> all[j] == None
    {
      PartCandidateIff(fields, i, name);
      NoPartIff(fields, i + 1);
    }
  }

  /** Under which name an accepted upload is recorded: that of the last form field that proposes one; only
      if there is none, that of the last payload part that carries one. */
  lemma RecordedNameIff(fields: seq<Field>, tailBroken: bool, json: ObjectReader, name: string)
    requires SizesFit(fields) && Outcome(fields, tailBroken, json).Ok?
    ensures Outcome(fields, tailBroken, json).value.filename == Some(name) <==>
            IsLastForm(fields, name) || (NoFormFrom(fields, 0) && IsLastPart(fields, name))
    ensures Outcome(fields, tailBroken, json).value.filename.Some?
  {
    FormFilenameIff(fields, name);
    PartFilenameIff(fields, name);
  }

  // ---------- The other entries ----------

  /** Field `i` is a form field `origin` with this text. */
  ghost predicate GivesOrigin(fields: seq<Field>, i: nat, text: string)
    requires i < |fields|
  {
    fields[i].name == "origin" && Says(fields, i, text)
  }

  ghost predicate IsLastOrigin(fields: seq<Field>, text: string) {
    exists i :: 0 <= i < |fields| && GivesOrigin(fields, i, text)
                && forall j, other :: i < j < |fields| ==> !GivesOrigin(fields, j, other)
  }

  lemma OriginStep(fields: seq<Field>, text: string)
    requires fields != []
    ensures var n := |fields| - 1;
            IsLastOrigin(fields, text) <==>
              GivesOrigin(fields, n, text)
              || (IsLastOrigin(fields[..n], text) && forall other :: !GivesOrigin(fields, n, other))
  {
    var n := |fields| - 1;
    var init := fields[..n];
    assert forall j :: 0 <= j < n ==> init[j] == fields[j];
    assert forall j, other :: 0 <= j < n ==> (GivesOrigin(init, j, other) <==> GivesOrigin(fields, j, other));
    if i :| 0 <= i < n && GivesOrigin(fields, i, text) && forall j, other :: i < j < |fields| ==> !GivesOrigin(fields, j, other) {
      assert GivesOrigin(init, i, text);
    }
    if IsLastOrigin(init, text) && forall other :: !GivesOrigin(fields, n, other) {
      var i :| 0 <= i < n && GivesOrigin(init, i, text) && forall j, other :: i < j < n ==> !GivesOrigin(init, j, other);
      assert GivesOrigin(fields, i, text);
    }
  }

  lemma {:induction false} LastOriginIff(fields: seq<Field>, text: string)
    ensures LastText(fields, "origin") == Some(text) <==> IsLastOrigin(fields, text)
  {
    if fields != [] {
      var n := |fields| - 1;
      LastOriginIff(fields[..n], text);
      OriginStep(fields, text);
      forall other ensures GivesOrigin(fields, n, other) <==> fields[n].name == "origin" && NonFileText(fields, n) == Some(other) {
        SaysIff(fields, n, other);
      }
      if NonFileText(fields, n).Some? { assert GivesOrigin(fields, n, NonFileText(fields, n).value) <==> fields[n].name == "origin"; }
    }
  }

  ghost predicate IsLastSize(fields: seq<Field>, size: int) {
    exists i :: 0 <= i < |fields| && CarriesPayload(fields, i) && |fields[i].content| == size
                && forall j :: i < j < |fields| ==> !CarriesPayload(fields, j)
  }

  lemma {:induction false} FileSizeIff(fields: seq<Field>, size: nat)
    ensures FileSize(fields) == Some(size) <==> IsLastSize(fields, size)
  {
    if fields != [] {
      var n := |fields| - 1;
      var init := fields[..n];
      FileSizeIff(init, size);
      FileIff(fields, n);
      assert forall j :: 0 <= j < n ==> (CarriesPayload(init, j) <==> CarriesPayload(fields, j)) && init[j] == fields[j];
      if IsLastSize(init, size) {
        var i :| 0 <= i < n && CarriesPayload(init, i) && |init[i].content| == size && forall j :: i < j < n ==> !CarriesPayload(init, j);
        assert CarriesPayload(fields, i);
      }
    }
  }

  /** The rest of the record of an accepted upload: the text of the last `origin` field, and the length of
      the last payload part. */
  lemma RecordedIff(fields: seq<Field>, tailBroken: bool, json: ObjectReader, text: string, size: nat)
    requires SizesFit(fields) && Outcome(fields, tailBroken, json).Ok?
    ensures Outcome(fields, tailBroken, json).value.origin == Some(text) <==> IsLastOrigin(fields, text)
    ensures Outcome(fields, tailBroken, json).value.filesize == Some(size) <==> IsLastSize(fields, size)
  {
    LastOriginIff(fields, text);
    FileSizeIff(fields, size);
    FileSizeFits(fields);
  }

  /** Field `i` decides about this key: it is an `extended` object, or a field of that name. */
  ghost predicate Decides(fields: seq<Field>, i: nat, json: ObjectReader, key: string)
    requires i < |fields|
  {
    exists text :: Says(fields, i, text) &&
      if fields[i].name == "extended" then json(text).Some?
      else fields[i].name == key && key !in {"", "origin", "filename"}
  }

  /** What it decides. */
  ghost predicate DecidesOn(fields: seq<Field>, i: nat, json: ObjectReader, key: string, v: Option<Json>)
    requires i < |fields|
  {
    exists text :: Says(fields, i, text) &&
      if fields[i].name == "extended" then json(text).Some? && v == Lookup(json(text).value, key)
      else fields[i].name == key && key !in {"", "origin", "filename"} && v == Some(Str(text))
  }

  lemma DecidesIff(fields: seq<Field>, i: nat, json: ObjectReader, key: string)
    requires i < |fields|
    ensures Decides(fields, i, json, key) <==> Touches(fields, i, json, key)
  {
    forall text ensures Says(fields, i, text) <==> NonFileText(fields, i) == Some(text) { SaysIff(fields, i, text); }
    if Touches(fields, i, json, key) { assert Says(fields, i, NonFileText(fields, i).value); }
  }

  /** An entry of `extended` is what the last field that decides about its key says, or absent if none does. */
  lemma ExtendedIs(fields: seq<Field>, tailBroken: bool, json: ObjectReader, key: string, i: nat, v: Option<Json>)
    requires SizesFit(fields) && Outcome(fields, tailBroken, json).Ok? && i <= |fields|
    requires forall j :: i < j < |fields| ==> !Decides(fields, j, json, key)
    requires i < |fields| ==> DecidesOn(fields, i, json, key, v)
    requires i == |fields| ==> v == None && forall j :: 0 <= j < |fields| ==> !Decides(fields, j, json, key)
    ensures Lookup(Outcome(fields, tailBroken, json).value.extended, key) == v
  {
    forall j | 0 <= j < |fields| ensures Decides(fields, j, json, key) <==> Touches(fields, j, json, key) {
      DecidesIff(fields, j, json, key);
    }
    if i < |fields| {
      forall text ensures Says(fields, i, text) <==> NonFileText(fields, i) == Some(text) { SaysIff(fields, i, text); }
      assert Decides(fields, i, json, key);
      LastTouchDecides(fields, json, key, i);
    } else {
      UntouchedIsAbsent(fields, json, key);
    }
  }

  // ---------- Payload and errors ----------

  ghost function PayloadOf(fields: seq<Field>, i: nat): seq<byte>
    requires i < |fields|
  {
    if CarriesPayload(fields, i) then fields[i].content else []
  }

  /** The payload is the contents of the fields that carry any, one after another. */
  lemma {:induction false} PayloadIs(fields: seq<Field>)
    ensures Payload(fields) == Flatten(seq(|fields|, i requires 0 <= i < |fields| => PayloadOf(fields, i)))
  {
    if fields != [] {
      var n := |fields| - 1;
      var init := fields[..n];
      var pieces := seq(|fields|, i requires 0 <= i < |fields| => PayloadOf(fields, i));
      var before := seq(|init|, i requires 0 <= i < |init| => PayloadOf(init, i));
      PayloadIs(init);
      FileIff(fields, n);
      assert forall i :: 0 <= i < n ==> (CarriesPayload(init, i) <==> CarriesPayload(fields, i)) && init[i] == fields[i];
      assert pieces[..n] == before;
    }
  }

  ghost predicate IsTooLarge(fields: seq<Field>, i: nat)
    requires i < |fields|
  {
    !CarriesPayload(fields, i) && |fields[i].content| > 65536
  }

  /** No field before `n` breaks off, and none but payload exceeds 64 KiB. */
  ghost predicate FineUpTo(fields: seq<Field>, n: nat)
    requires n <= |fields|
  {
    forall j :: 0 <= j < n ==> !fields[j].broken && !IsTooLarge(fields, j)
  }

  /** The first field that is not fine gives this error. */
  ghost predicate FailsWith(fields: seq<Field>, e: UploadError) {
    exists i :: 0 <= i < |fields| && FineUpTo(fields, i) &&
      if IsTooLarge(fields, i) then e == FieldTooLarge(fields[i].name) else fields[i].broken && e == BadStream
  }

  lemma FieldErrorIs(fields: seq<Field>, i: nat)
    requires i < |fields|
    ensures FieldError(fields, i) ==
            if IsTooLarge(fields, i) then Some(FieldTooLarge(fields[i].name)) else if fields[i].broken then Some(BadStream) else None
  {
    FileIff(fields, i);
  }

  lemma FirstErrorIff(fields: seq<Field>, e: UploadError)
    ensures FirstError(fields) == Some(e) <==> FailsWith(fields, e)
    ensures FirstError(fields) == None <==> FineUpTo(fields, |fields|)
  {
    EarliestErrorDecides(fields, e);
    forall i | 0 <= i < |fields|
      ensures FieldError(fields, i) ==
              if IsTooLarge(fields, i) then Some(FieldTooLarge(fields[i].name)) else if fields[i].broken then Some(BadStream) else None
    {
      FieldErrorIs(fields, i);
    }
  }

  /** Why a body is rejected, and when it is accepted. */
  lemma OutcomeIff(fields: seq<Field>, tailBroken: bool, json: ObjectReader, e: UploadError)
    requires SizesFit(fields)
    ensures var fine := FineUpTo(fields, |fields|);
            var noFile := forall i :: 0 <= i < |fields| ==> !CarriesPayload(fields, i);
            var noName := NoFormFrom(fields, 0) && NoPartFrom(fields, 0);
            && (Outcome(fields, tailBroken, json) == Err(e) <==>
                  || FailsWith(fields, e)
                  || (fine && tailBroken && e == BadStream)
                  || (fine && !tailBroken && noFile && e == MissingFile)
                  || (fine && !tailBroken && !noFile && noName && e == MissingFilename))
            && (Outcome(fields, tailBroken, json).Ok? <==> fine && !tailBroken && !noFile && !noName)
  {
    FirstErrorIff(fields, e);
    SomeFile(fields);
    forall i | 0 <= i < |fields| ensures IsFile(fields, i) <==> CarriesPayload(fields, i) { FileIff(fields, i); }
    FormFilenameIff(fields, "");
    PartFilenameIff(fields, "");
  }

  /** A part as it arrives: its name, empty if it has none, and its chunks put together. */
  lemma WholeIs(p: Part)
    ensures Whole(p).name == (match p.name case None => "" case Some(name) => name)
    ensures Whole(p).content == Flatten(p.chunks) && Whole(p).fileName == p.fileName && Whole(p).broken == p.broken
  {}
}
