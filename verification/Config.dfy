/** The vault configuration file: its writer, its line scanner, and the round trip between them. */
module Config {
  import opened Prelude
  import opened Text

  datatype Permissions = Permissions(
    allowSubfolders: bool,
    allowUpload: bool,
    allowDownload: bool,
    allowList: bool,
    allowDelete: bool,
    allowMetadata: bool,
    allowLockUnlock: bool)

  const DEFAULT := Permissions(false, true, true, true, true, true, true)

  datatype VaultConfig = VaultConfig(publicKey: string, permissions: Permissions)

  datatype ConfigError = InvalidConfig

  const NAME_TAG := "inbox-name: "
  const KEY_TAG := "public-key: "
  const PERM_TAG := "permissions: "

  /** A configuration file as it is written. */
  lemma WrittenText(inboxName: string, config: VaultConfig)
    ensures ConfigText(inboxName, config) ==
            "inbox-name: " + inboxName + "\n"
            + ("public-key: " + config.publicKey + "\n" + (("permissions: " + PermissionsJson(config.permissions)) + "\n"))
  {}

  // ---------- The permissions line ----------

  function Bool(b: bool): string {
    if b then "true" else "false"
  }

  const TAGS := [
    "{\"allow_subfolders\":", ",\"allow_upload\":", ",\"allow_download\":", ",\"allow_list\":",
    ",\"allow_delete\":", ",\"allow_metadata\":", ",\"allow_lock_unlock\":"]

  function Flags(p: Permissions): (flags: seq<bool>)
    ensures |flags| == |TAGS|
  {
    [p.allowSubfolders, p.allowUpload, p.allowDownload, p.allowList, p.allowDelete, p.allowMetadata, p.allowLockUnlock]
  }

  function FromFlags(f: seq<bool>): Permissions
    requires |f| == |TAGS|
  {
    Permissions(f[0], f[1], f[2], f[3], f[4], f[5], f[6])
  }

  function PrintFlags(tags: seq<string>, flags: seq<bool>): string
    requires |tags| == |flags|
  {
    if tags == [] then "}" else tags[0] + Bool(flags[0]) + PrintFlags(tags[1..], flags[1..])
  }

  /** Compact JSON, as serde_json writes the record. */
  function PermissionsJson(p: Permissions): string {
    PrintFlags(TAGS, Flags(p))
  }

  lemma PrintedFrom(tags: seq<string>, flags: seq<bool>, i: nat)
    requires |tags| == |flags| && i < |tags|
    ensures PrintFlags(tags[i..], flags[i..]) == tags[i] + Bool(flags[i]) + PrintFlags(tags[i + 1..], flags[i + 1..])
  {
    assert tags[i..][1..] == tags[i + 1..] && flags[i..][1..] == flags[i + 1..];
  }

  /** Every flag under its own key. */
  lemma WrittenFlags(p: Permissions)
    ensures PermissionsJson(p) ==
            "{\"allow_subfolders\":" + Bool(p.allowSubfolders) + (",\"allow_upload\":" + Bool(p.allowUpload)
            + (",\"allow_download\":" + Bool(p.allowDownload) + (",\"allow_list\":" + Bool(p.allowList)
            + (",\"allow_delete\":" + Bool(p.allowDelete) + (",\"allow_metadata\":" + Bool(p.allowMetadata)
            + (",\"allow_lock_unlock\":" + Bool(p.allowLockUnlock) + "}"))))))
  {
    SevenFlags(TAGS, Flags(p));
  }

  lemma SevenFlags(t: seq<string>, f: seq<bool>)
    requires |t| == |f| == 7
    ensures PrintFlags(t, f) ==
            t[0] + Bool(f[0]) + (t[1] + Bool(f[1]) + (t[2] + Bool(f[2]) + (t[3] + Bool(f[3]) + (t[4] + Bool(f[4])
            + (t[5] + Bool(f[5]) + (t[6] + Bool(f[6]) + "}"))))))
  {
    assert t[0..] == t && f[0..] == f;
    PrintedFrom(t, f, 0);
    PrintedFrom(t, f, 1);
    PrintedFrom(t, f, 2);
    PrintedFrom(t, f, 3);
    PrintedFrom(t, f, 4);
    PrintedFrom(t, f, 5);
    PrintedFrom(t, f, 6);
    assert PrintFlags(t[7..], f[7..]) == "}";
  }

  function ReadFlags(tags: seq<string>, s: string): (r: Option<seq<bool>>)
    ensures r.Some? ==> |r.value| == |tags|
  {
    if tags == [] then if s == "}" then Some([]) else None
    else if !StartsWith(s, tags[0]) then None
    else
      var rest := s[|tags[0]|..];
      if StartsWith(rest, "true") then
        match ReadFlags(tags[1..], rest[4..]) case None => None case Some(flags) => Some([true] + flags)
      else if StartsWith(rest, "false") then
        match ReadFlags(tags[1..], rest[5..]) case None => None case Some(flags) => Some([false] + flags)
      else None
  }

  /** Parses the compact form. */
  function CompactPermissions(s: string): Option<Permissions> {
    match ReadFlags(TAGS, s)
    case None => None
    case Some(flags) => Some(FromFlags(flags))
  }

  lemma ReadOneFlag(tags: seq<string>, b: bool, tail: string)
    requires tags != []
    ensures ReadFlags(tags, tags[0] + Bool(b) + tail) ==
            match ReadFlags(tags[1..], tail) { case None => None case Some(flags) => Some([b] + flags) }
  {
    var rest := (tags[0] + Bool(b) + tail)[|tags[0]|..];
    assert rest == Bool(b) + tail;
    if b {
      assert rest[4..] == tail;
    } else {
      NotPrefix(rest, "true", 0);
      assert rest[5..] == tail;
    }
  }

  lemma {:induction false} FlagsRoundTrip(tags: seq<string>, flags: seq<bool>)
    requires |tags| == |flags|
    ensures ReadFlags(tags, PrintFlags(tags, flags)) == Some(flags)
  {
    if tags != [] {
      FlagsRoundTrip(tags[1..], flags[1..]);
      ReadOneFlag(tags, flags[0], PrintFlags(tags[1..], flags[1..]));
      assert flags == [flags[0]] + flags[1..];
    }
  }

  lemma {:induction false} PrintedOnOneLine(tags: seq<string>, flags: seq<bool>)
    requires |tags| == |flags|
    requires forall i :: 0 <= i < |tags| ==> '\n' !in tags[i]
    ensures '\n' !in PrintFlags(tags, flags)
    ensures PrintFlags(tags, flags) != "" && EndsWith(PrintFlags(tags, flags), "}")
  {
    if tags != [] {
      PrintedOnOneLine(tags[1..], flags[1..]);
    }
  }

  lemma {:induction false} ReadFlagsIff(tags: seq<string>, s: string, flags: seq<bool>)
    requires |tags| == |flags|
    ensures ReadFlags(tags, s) == Some(flags) ==> s == PrintFlags(tags, flags)
  {
    if tags != [] && ReadFlags(tags, s) == Some(flags) {
      var rest := s[|tags[0]|..];
      assert s == tags[0] + rest;
      var n := if StartsWith(rest, "true") then 4 else 5;
      assert rest == Bool(flags[0]) + rest[n..];
      ReadFlagsIff(tags[1..], rest[n..], flags[1..]);
      AppendAssociates(tags[0], Bool(flags[0]), rest[n..]);
    }
  }

  /** The compact form of some flags, and no other text, is read as these flags without the JSON reader. */
  lemma CompactIff(s: string, p: Permissions)
    ensures CompactPermissions(s) == Some(p) <==> s == PermissionsJson(p)
  {
    CompactOnly(TAGS, s, p);
    FlagsRoundTrip(TAGS, Flags(p));
  }

  lemma CompactOnly(tags: seq<string>, s: string, p: Permissions)
    requires tags == TAGS
    ensures CompactPermissions(s) == Some(p) ==> s == PrintFlags(tags, Flags(p))
  {
    if CompactPermissions(s) == Some(p) {
      var flags := ReadFlags(tags, s).value;
      ReadFlagsIff(tags, s, flags);
      FlagsOf(flags);
    }
  }

  lemma FlagsOf(flags: seq<bool>)
    requires |flags| == |TAGS|
    ensures Flags(FromFlags(flags)) == flags
  {}

  /** What the JSON reader makes of a text that is not in compact form, whatever that is. */
  type OtherJson = string -> Option<Permissions>

  function ParsePermissions(s: string, other: OtherJson): Option<Permissions> {
    match CompactPermissions(s)
    case Some(p) => Some(p)
    case None => other(s)
  }

  // ---------- Writer and reader ----------

  function ConfigText(inboxName: string, config: VaultConfig): string {
    FileText(inboxName, config.publicKey, PERM_TAG + PermissionsJson(config.permissions))
  }

  function FileText(inboxName: string, key: string, permLine: string): string {
    NAME_TAG + inboxName + "\n" + (KEY_TAG + key + "\n" + (permLine + "\n"))
  }

  function KeyLine(line: string): Option<string> {
    if StartsWith(line, KEY_TAG) then Some(TrimStartMatches(line, KEY_TAG)) else None
  }

  function PermLine(line: string, other: OtherJson): Option<Permissions> {
    if StartsWith(line, KEY_TAG) || !StartsWith(line, PERM_TAG) then None
    else ParsePermissions(TrimStartMatches(line, PERM_TAG), other)
  }

  /** The key of the last key line, or the empty text. */
  function LastKey(lines: seq<string>): string {
    if lines == [] then ""
    else KeyLine(lines[|lines| - 1]).GetOr(LastKey(lines[..|lines| - 1]))
  }

  /** The flags of the last permissions line that parses, or the defaults. */
  function LastPermissions(lines: seq<string>, other: OtherJson): Permissions {
    if lines == [] then DEFAULT
    else PermLine(lines[|lines| - 1], other).GetOr(LastPermissions(lines[..|lines| - 1], other))
  }

  function ConfigOf(lines: seq<string>, other: OtherJson): Result<VaultConfig, ConfigError> {
    if LastKey(lines) == "" then Err(InvalidConfig)
    else Ok(VaultConfig(LastKey(lines), LastPermissions(lines, other)))
  }

  /** The scan of read_vault_config_file. */
  method ReadConfig(content: string, other: OtherJson) returns (r: Result<VaultConfig, ConfigError>)
    ensures r == ConfigOf(Lines(content), other)
  {
    var publicKey, permissions := "", DEFAULT;
    var lines := Lines(content);
    for i := 0 to |lines|
      invariant publicKey == LastKey(lines[..i])
      invariant permissions == LastPermissions(lines[..i], other)
    {
      var line := lines[i];
      assert lines[..i + 1][..i] == lines[..i];
      if StartsWith(line, KEY_TAG) {
        publicKey := TrimStartMatches(line, KEY_TAG);
      } else if StartsWith(line, PERM_TAG) {
        var perms := ParsePermissions(TrimStartMatches(line, PERM_TAG), other);
        if perms.Some? {
          permissions := perms.value;
        }
      }
    }
    assert lines[..|lines|] == lines;
    if publicKey == "" {
      return Err(InvalidConfig);
    }
    return Ok(VaultConfig(publicKey, permissions));
  }

  /** "Last line wins": a key line behind which no other key line comes gives the key. */
  lemma {:induction false} LastKeyWins(lines: seq<string>, i: nat)
    requires i < |lines| && KeyLine(lines[i]).Some?
    requires forall j :: i < j < |lines| ==> KeyLine(lines[j]) == None
    ensures LastKey(lines) == KeyLine(lines[i]).value
  {
    if i < |lines| - 1 {
      LastKeyWins(lines[..|lines| - 1], i);
    }
  }

  /** The last permissions line that can be parsed gives the flags. */
  lemma {:induction false} LastFlagsWin(lines: seq<string>, other: OtherJson, i: nat)
    requires i < |lines| && PermLine(lines[i], other).Some?
    requires forall j :: i < j < |lines| ==> PermLine(lines[j], other) == None
    ensures LastPermissions(lines, other) == PermLine(lines[i], other).value
  {
    if i < |lines| - 1 {
      LastFlagsWin(lines[..|lines| - 1], other, i);
    }
  }

  /** A file that holds a key and nothing else: everything is allowed but subfolders. */
  lemma KeyOnlyFile(key: string, other: OtherJson)
    requires KeyIsClean(key)
    ensures ConfigOf(["public-key: " + key], other) ==
            Ok(VaultConfig(key, Permissions(false, true, true, true, true, true, true)))
  {
    OneKeyLine(KEY_TAG + key, key, other);
  }

  lemma OneKeyLine(line: string, key: string, other: OtherJson)
    requires KeyIsClean(key) && line == KEY_TAG + key
    ensures ConfigOf([line], other) == Ok(VaultConfig(key, DEFAULT))
  {
    assert [line][..0] == [];
    TrimPeels(KEY_TAG, key);
    assert KeyLine(line) == Some(key);
    assert LastKey([line]) == key && LastPermissions([line], other) == DEFAULT;
  }

  /** The flags that a text stands for: those it is the compact form of, or else what the JSON reader makes of
      it. */
  ghost predicate StandsFor(json: string, other: OtherJson, p: Permissions) {
    json == PermissionsJson(p) || (other(json) == Some(p) && forall q :: json != PermissionsJson(q))
  }

  lemma ParsedIff(json: string, other: OtherJson, p: Permissions)
    ensures ParsePermissions(json, other) == Some(p) <==> StandsFor(json, other, p)
  {
    forall q ensures CompactPermissions(json) == Some(q) <==> json == PermissionsJson(q) { CompactIff(json, q); }
    if CompactPermissions(json).Some? { assert json == PermissionsJson(CompactPermissions(json).value); }
  }

  /** A permissions line counts if it stands for some flags, and is passed over if not. */
  lemma FlagsLine(key: string, json: string, other: OtherJson, p: Permissions)
    requires KeyIsClean(key) && !StartsWith(json, "permissions: ")
    ensures StandsFor(json, other, p) ==> ConfigOf([KEY_TAG + key, PERM_TAG + json], other) == Ok(VaultConfig(key, p))
    ensures (forall q :: !StandsFor(json, other, q)) ==>
              ConfigOf([KEY_TAG + key, PERM_TAG + json], other) ==
              Ok(VaultConfig(key, Permissions(false, true, true, true, true, true, true)))
    ensures KEY_TAG == "public-key: " && PERM_TAG == "permissions: "
  {
    KeyThenFlags(KEY_TAG + key, PERM_TAG + json, key, json, other);
    ParsedIff(json, other, p);
    NotParsedIff(json, other);
  }

  lemma NotParsedIff(json: string, other: OtherJson)
    ensures ParsePermissions(json, other) == None <==> forall q :: !StandsFor(json, other, q)
  {
    forall q ensures ParsePermissions(json, other) == Some(q) <==> StandsFor(json, other, q) { ParsedIff(json, other, q); }
    if ParsePermissions(json, other).Some? { assert StandsFor(json, other, ParsePermissions(json, other).value); }
  }

  lemma KeyThenFlags(line1: string, line2: string, key: string, json: string, other: OtherJson)
    requires KeyIsClean(key) && !StartsWith(json, PERM_TAG) && line1 == KEY_TAG + key && line2 == PERM_TAG + json
    ensures ConfigOf([line1, line2], other) == Ok(VaultConfig(key, ParsePermissions(json, other).GetOr(DEFAULT)))
  {
    var lines := [line1, line2];
    assert lines[..1] == [line1] && [line1][..0] == [];
    TrimPeels(KEY_TAG, key);
    TrimPeels(PERM_TAG, json);
    assert line2[1] == 'e';
    NotPrefix(line2, KEY_TAG, 1);
    assert KeyLine(line1) == Some(key) && KeyLine(line2) == None;
    assert LastKey(lines) == LastKey([line1]) == key;
    assert PermLine(line1, other) == None && PermLine(line2, other) == ParsePermissions(json, other);
    assert LastPermissions([line1], other) == DEFAULT;
  }

  /** Without a key there is no configuration. */
  lemma {:induction false} NoKeyNoConfig(lines: seq<string>, other: OtherJson)
    requires forall line :: line in lines ==> !StartsWith(line, "public-key: ")
    ensures ConfigOf(lines, other) == Err(InvalidConfig)
  {
    if lines != [] {
      assert lines[|lines| - 1] in lines;
      NoKeyNoConfig(lines[..|lines| - 1], other);
    }
  }

  // ---------- Round trip ----------

  /** What the reader needs to know about a line to take its flags. */
  predicate CarriesFlags(permLine: string, p: Permissions, other: OtherJson) {
    '\n' !in permLine && StripCr(permLine) == permLine && KeyLine(permLine) == None && PermLine(permLine, other) == Some(p)
  }

  lemma TagIsTrimmed(json: string)
    requires json != "" && json[0] == '{'
    ensures TrimStartMatches(PERM_TAG + json, PERM_TAG) == json
    ensures !StartsWith(PERM_TAG + json, KEY_TAG)
  {
    TrimPeels(PERM_TAG, json);
    NotPrefix(json, PERM_TAG, 0);
    assert (PERM_TAG + json)[1] == PERM_TAG[1];
    NotPrefix(PERM_TAG + json, KEY_TAG, 1);
  }

  lemma NoCrAtEnd(json: string)
    requires json != "" && EndsWith(json, "}")
    ensures StripCr(PERM_TAG + json) == PERM_TAG + json
  {
    assert json[|json| - 1..][0] == '}';
    NotSuffix(json, "\r", 0);
    StripCrOfAppend(PERM_TAG, json);
  }

  lemma TaggedJsonCarriesFlags(json: string, p: Permissions, other: OtherJson)
    requires json != "" && json[0] == '{' && EndsWith(json, "}") && '\n' !in json
    requires CompactPermissions(json) == Some(p)
    ensures CarriesFlags(PERM_TAG + json, p, other)
  {
    TagIsTrimmed(json);
    NoCrAtEnd(json);
    assert '\n' !in PERM_TAG + json;
    assert StartsWith(PERM_TAG + json, PERM_TAG);
  }

  lemma {:induction false} FirstChar(tags: seq<string>, flags: seq<bool>)
    requires |tags| == |flags| && tags != [] && tags[0] != ""
    ensures PrintFlags(tags, flags) != "" && PrintFlags(tags, flags)[0] == tags[0][0]
  {}

  lemma WrittenLineCarriesFlags(p: Permissions, other: OtherJson)
    ensures CarriesFlags(PERM_TAG + PermissionsJson(p), p, other)
  {
    PrintedFlags(TAGS, Flags(p), PermissionsJson(p));
    TaggedJsonCarriesFlags(PermissionsJson(p), p, other);
  }

  lemma PrintedFlags(tags: seq<string>, flags: seq<bool>, json: string)
    requires tags == TAGS && |tags| == |flags| && json == PrintFlags(tags, flags)
    ensures json != "" && json[0] == '{' && EndsWith(json, "}") && '\n' !in json
    ensures CompactPermissions(json) == Some(FromFlags(flags))
  {
    NoLineFeedInTags(tags);
    PrintedOnOneLine(tags, flags);
    FlagsRoundTrip(tags, flags);
    FirstChar(tags, flags);
  }

  lemma NoLineFeedInTags(tags: seq<string>)
    requires tags == TAGS
    ensures forall i :: 0 <= i < |tags| ==> '\n' !in tags[i]
    ensures |tags| > 0 && tags[0] != "" && tags[0][0] == '{'
  {}

  /** A key that can be written and read back: a single line that does not look like a key line itself. */
  predicate KeyIsClean(key: string) {
    key != "" && '\n' !in key && !EndsWith(key, "\r") && !StartsWith(key, KEY_TAG)
  }

  /** What a key line holding `key` is read as. */
  lemma ReadKeyLine(key: string)
    requires '\n' !in key
    ensures KeyLine(StripCr(KEY_TAG + key)) == Some(TrimStartMatches(StripCr(key), KEY_TAG))
  {
    NotSuffix(KEY_TAG, "\r", 0);
    StripCrOfAppend(KEY_TAG, key);
    TrimPeels(KEY_TAG, StripCr(key));
  }

  /** The lines of a written file: those of the inbox name, then those of the key, then the flags. */
  lemma WrittenLines(inboxName: string, key: string, permLine: string)
    requires '\n' !in permLine && StripCr(permLine) == permLine
    ensures Lines(FileText(inboxName, key, permLine)) == Lines(NAME_TAG + inboxName + "\n") + Lines(KEY_TAG + key + "\n") + [permLine]
  {
    OneLine(permLine);
    LinesAppend(KEY_TAG + key, permLine + "\n");
    LinesAppend(NAME_TAG + inboxName, KEY_TAG + key + "\n" + (permLine + "\n"));
  }

  lemma {:induction false} KeyHasNoLineFeed(lines: seq<string>)
    requires forall line :: line in lines ==> '\n' !in line
    ensures '\n' !in LastKey(lines)
  {
    if lines != [] {
      var last := lines[|lines| - 1];
      assert last in lines;
      KeyHasNoLineFeed(lines[..|lines| - 1]);
      if '\n' in TrimStartMatches(last, KEY_TAG) { TrimStartTakesNothingIn(last, KEY_TAG, '\n'); }
    }
  }

  lemma KeyBeforeFlags(head: seq<string>, keyLine: string, permLine: string)
    requires KeyLine(keyLine).Some? && KeyLine(permLine) == None
    ensures LastKey(head + [keyLine] + [permLine]) == KeyLine(keyLine).value
  {
    LastKeyWins(head + [keyLine] + [permLine], |head|);
  }

  lemma ReadBackOneLineKey(inboxName: string, key: string, permLine: string, p: Permissions, other: OtherJson)
    requires CarriesFlags(permLine, p, other) && '\n' !in key
    ensures LastKey(Lines(FileText(inboxName, key, permLine))) == TrimStartMatches(StripCr(key), KEY_TAG)
  {
    WrittenLines(inboxName, key, permLine);
    assert '\n' !in KEY_TAG + key;
    OneLine(KEY_TAG + key);
    ReadKeyLine(key);
    KeyBeforeFlags(Lines(NAME_TAG + inboxName + "\n"), StripCr(KEY_TAG + key), permLine);
  }

  lemma ReadBackFlags(inboxName: string, key: string, permLine: string, p: Permissions, other: OtherJson)
    requires CarriesFlags(permLine, p, other)
    ensures LastPermissions(Lines(FileText(inboxName, key, permLine)), other) == p
  {
    WrittenLines(inboxName, key, permLine);
  }

  lemma KeyComesBackIff(inboxName: string, key: string, permLine: string, p: Permissions, other: OtherJson)
    requires CarriesFlags(permLine, p, other)
    ensures LastKey(Lines(FileText(inboxName, key, permLine))) == key <==> (key == "" || KeyIsClean(key))
  {
    if '\n' in key {
      LinesHaveNoLineFeed(FileText(inboxName, key, permLine));
      KeyHasNoLineFeed(Lines(FileText(inboxName, key, permLine)));
    } else {
      ReadBackOneLineKey(inboxName, key, permLine, p, other);
    }
  }

  /**
   For every inbox name, even one that forges key and permissions lines, a written configuration is
   read back unchanged exactly when the key is clean. The flags come back in any case.
   */
  lemma ConfigRoundTrip(inboxName: string, config: VaultConfig, other: OtherJson)
    ensures ConfigOf(Lines(ConfigText(inboxName, config)), other) == Ok(config) <==> KeyIsClean(config.publicKey)
    ensures LastPermissions(Lines(ConfigText(inboxName, config)), other) == config.permissions
  {
    WrittenLineCarriesFlags(config.permissions, other);
    var permLine := PERM_TAG + PermissionsJson(config.permissions);
    ReadBackFlags(inboxName, config.publicKey, permLine, config.permissions, other);
    KeyComesBackIff(inboxName, config.publicKey, permLine, config.permissions, other);
  }
}
