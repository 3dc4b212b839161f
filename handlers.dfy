/**
 * The server's request-side validators: document IDs taken from the URL path,
 * the WebSocket origin allow-list, and the root-path redirect.
 */
module Handlers {
  import opened Wrappers
  import opened Strings

  /** The largest document ID, in bytes. */
  const MaxDocumentIDBytes := 100

  const FieldDocumentID := "documentID"
  const ReasonRequired := "required in URL path"
  const ReasonFormat := "must contain only alphanumeric characters, hyphens, and underscores"

  // ---------------------------------------------------------------------------
  // Document IDs

  /** The characters a document ID may hold: ASCII letters, digits, `-` and `_`. */
  function IsAlphanumericOrHyphenUnderscore(c: char): (ok: bool)
    ensures ok ==> c as int < 0x80
    ensures ok ==> !IsSpace(c)
    ensures ok ==> c != ' ' && c != '@' && c != '/' && c != '.' && c != '\0'
  {
    ('a' <= c && c <= 'z') || ('A' <= c && c <= 'Z') || ('0' <= c && c <= '9') || c == '-' || c == '_'
  }

  /** The scan over the runes of an ID, stopping at the first character not allowed. */
  function AllAllowed(id: string): (ok: bool)
    ensures ok <==> forall i :: 0 <= i < |id| ==> IsAlphanumericOrHyphenUnderscore(id[i])
    decreases |id|
  {
    if id == "" then true
    else
      assert forall i :: 1 <= i < |id| ==> id[i] == id[1..][i - 1];
      IsAlphanumericOrHyphenUnderscore(id[0]) && AllAllowed(id[1..])
  }

  /**
   * A document ID is 1 to 100 bytes long and every character is allowed.
   * The length test is on bytes, as in the source; since every allowed
   * character is one byte, this is the same as 1 to 100 characters.
   */
  function IsValidDocumentID(id: string): (ok: bool)
    ensures ok <==> 1 <= |id| <= MaxDocumentIDBytes
                    && forall i :: 0 <= i < |id| ==> IsAlphanumericOrHyphenUnderscore(id[i])
  {
    if ByteLen(id) == 0 || ByteLen(id) > MaxDocumentIDBytes then false
    else AllAllowed(id)
  }

  /** A rejected input: which field, and why. */
  datatype ValidationError = ValidationError(field: string, reason: string) {
    /** The message: the field name, one space, the reason. */
    function Error(): (msg: string)
      ensures |msg| == |field| + 1 + |reason|
      ensures msg[..|field|] == field && msg[|field|] == ' ' && msg[|field| + 1..] == reason
    {
      field + " " + reason
    }
  }

  /** The pair the source returns: the ID, and the error when there is one. */
  datatype Extraction = Extraction(documentID: string, err: Option<ValidationError>)

  /**
   * The document ID in `path` after `prefix`, trimmed of surrounding whitespace.
   * On failure the ID is empty and the error names the field; on success the ID
   * is valid and is what the path held after the prefix, up to whitespace.
   */
  function ExtractDocumentID(path: string, prefix: string): (r: Extraction)
    ensures r.err.Some? ==> r.documentID == "" && r.err.value.field == FieldDocumentID
    ensures r.err.Some? ==> r.err.value.reason == ReasonRequired || r.err.value.reason == ReasonFormat
    ensures r.err.None? ==> IsValidDocumentID(r.documentID)
    ensures r.err.None? ==> r.documentID == TrimSpace(TrimPrefix(path, prefix))
    ensures r.err.None? <==> IsValidDocumentID(TrimSpace(TrimPrefix(path, prefix)))
    ensures r.err.Some? ==> (r.err.value.reason == ReasonFormat <==> TrimSpace(TrimPrefix(path, prefix)) != "")
  {
    var documentID := TrimSpace(TrimPrefix(path, prefix));
    if documentID == "" then
      Extraction("", Some(ValidationError(FieldDocumentID, ReasonRequired)))
    else if !IsValidDocumentID(documentID) then
      Extraction("", Some(ValidationError(FieldDocumentID, ReasonFormat)))
    else
      Extraction(documentID, None)
  }

  /** A path whose rest after the prefix is blank fails with "required", and only such a path. */
  lemma ExtractRequired(path: string, prefix: string)
    ensures ExtractDocumentID(path, prefix).err == Some(ValidationError(FieldDocumentID, ReasonRequired))
        <==> forall k :: 0 <= k < |TrimPrefix(path, prefix)| ==> IsSpace(TrimPrefix(path, prefix)[k])
  {
    TrimSpaceEmpty(TrimPrefix(path, prefix));
  }

  /** Nothing but whitespace behind the prefix fails with "required". */
  lemma ExtractBlank(prefix: string, blank: string)
    requires forall k :: 0 <= k < |blank| ==> IsSpace(blank[k])
    ensures ExtractDocumentID(prefix + blank, prefix).err == Some(ValidationError(FieldDocumentID, ReasonRequired))
  {
    assert (prefix + blank)[..|prefix|] == prefix;
    assert TrimPrefix(prefix + blank, prefix) == blank;
    ExtractRequired(prefix + blank, prefix);
  }

  /** A path that does not start with the prefix is read whole, as if the prefix were in front of it. */
  lemma ExtractWithoutPrefix(path: string, prefix: string)
    requires !HasPrefix(path, prefix)
    ensures ExtractDocumentID(path, prefix) == ExtractDocumentID(prefix + path, prefix)
  {
    assert (prefix + path)[..|prefix|] == prefix;
    assert (prefix + path)[|prefix|..] == path;
  }

  /** The round trip: a valid ID behind the prefix comes back unchanged, with no error. */
  lemma ExtractRoundTrip(prefix: string, id: string)
    requires IsValidDocumentID(id)
    ensures ExtractDocumentID(prefix + id, prefix) == Extraction(id, None)
  {
    assert (prefix + id)[..|prefix|] == prefix;
    assert (prefix + id)[|prefix|..] == id;
  }

  /** Whitespace around a valid ID is dropped: the rest of the path is the ID. */
  lemma {:induction false} ExtractIgnoresSurroundingSpace(prefix: string, lead: string, id: string, trail: string)
    requires IsValidDocumentID(id)
    requires forall k :: 0 <= k < |lead| ==> IsSpace(lead[k])
    requires forall k :: 0 <= k < |trail| ==> IsSpace(trail[k])
    ensures ExtractDocumentID(prefix + lead + id + trail, prefix) == Extraction(id, None)
  {
    var rest := lead + id + trail;
    var path := prefix + lead + id + trail;
    assert path == prefix + rest;
    assert path[..|prefix|] == prefix && path[|prefix|..] == rest;
    assert TrimPrefix(path, prefix) == rest;
    assert lead + (id + trail) == rest;
    TrimLeftOfSpaces(lead, id + trail);
    TrimRightOfSpaces(id, trail);
    assert TrimSpace(rest) == id;
  }

  /** Leading blanks go, and the rest starts with a non-space. */
  lemma {:induction false} TrimLeftOfSpaces(lead: string, t: string)
    requires forall k :: 0 <= k < |lead| ==> IsSpace(lead[k])
    requires t != "" && !IsSpace(t[0])
    ensures TrimLeft(lead + t) == t
    decreases |lead|
  {
    if lead != "" {
      assert (lead + t)[1..] == lead[1..] + t;
      TrimLeftOfSpaces(lead[1..], t);
    } else {
      assert lead + t == t;
    }
  }

  /** Trailing blanks go, and what is before them ends with a non-space. */
  lemma {:induction false} TrimRightOfSpaces(t: string, trail: string)
    requires forall k :: 0 <= k < |trail| ==> IsSpace(trail[k])
    requires t != "" && !IsSpace(t[|t| - 1])
    ensures TrimRight(t + trail) == t
    decreases |trail|
  {
    if trail != "" {
      assert (t + trail)[..|t + trail| - 1] == t + trail[..|trail| - 1];
      TrimRightOfSpaces(t, trail[..|trail| - 1]);
    } else {
      assert t + trail == t;
    }
  }

  // ---------------------------------------------------------------------------
  // Origin allow-list

  /** The origins allowed before any configuration. */
  const DefaultAllowedOrigins: seq<string> := ["http://localhost:8080", "http://127.0.0.1:8080"]

  /** Every piece trimmed of surrounding whitespace, in order. */
  function TrimAll(pieces: seq<string>): (trimmed: seq<string>)
    ensures |trimmed| == |pieces|
    ensures forall i :: 0 <= i < |pieces| ==> trimmed[i] == TrimSpace(pieces[i])
    decreases |pieces|
  {
    if pieces == [] then []
    else TrimAll(pieces[..|pieces| - 1]) + [TrimSpace(pieces[|pieces| - 1])]
  }

  /** The non-empty strings of `xs`, in order. */
  function NonEmpty(xs: seq<string>): (kept: seq<string>)
    ensures |kept| <= |xs|
    ensures forall e :: e in kept <==> e in xs && e != ""
    decreases |xs|
  {
    if xs == [] then []
    else
      var front, last := xs[..|xs| - 1], xs[|xs| - 1];
      var kept := NonEmpty(front) + (if last != "" then [last] else []);
      FrontLast(xs);
      InConcat(last, front, [last]);
      kept
  }

  /** The allow-list a comma-separated configuration string stands for. */
  function ParseOrigins(origins: string): (allowed: seq<string>)
    ensures |allowed| <= |Split(origins, ',')|
  {
    NonEmpty(TrimAll(Split(origins, ',')))
  }

  /** A kept, trimmed piece is never empty, never has whitespace at either end, and lacks any character no piece holds. */
  lemma TrimmedWellFormed(pieces: seq<string>, c: char)
    requires forall i :: 0 <= i < |pieces| ==> c !in pieces[i]
    ensures forall e :: e in NonEmpty(TrimAll(pieces)) ==> e != "" && Trimmed(e) && c !in e
  {
    var trimmed := TrimAll(pieces);
    forall e | e in NonEmpty(trimmed)
      ensures e != "" && Trimmed(e) && c !in e
    {
      var i :| 0 <= i < |trimmed| && trimmed[i] == e;
      TrimSpaceKeepsAbsence(pieces[i], c);
    }
  }

  /** A configured entry is never empty, never has whitespace at either end, and holds no comma. */
  lemma ParsedOriginsWellFormed(origins: string)
    ensures forall e :: e in ParseOrigins(origins) ==> e != "" && Trimmed(e) && ',' !in e
  {
    TrimmedWellFormed(Split(origins, ','), ',');
  }

  /** A string is among the kept, trimmed pieces exactly when it is non-empty and some piece trims to it. */
  lemma TrimmedMembers(pieces: seq<string>, x: string)
    ensures x in NonEmpty(TrimAll(pieces)) <==>
      x != "" && exists i :: 0 <= i < |pieces| && TrimSpace(pieces[i]) == x
  {
    var trimmed := TrimAll(pieces);
    if x in trimmed {
      var i :| 0 <= i < |trimmed| && trimmed[i] == x;
      assert TrimSpace(pieces[i]) == x;
    }
    if exists i :: 0 <= i < |pieces| && TrimSpace(pieces[i]) == x {
      var i :| 0 <= i < |pieces| && TrimSpace(pieces[i]) == x;
      assert trimmed[i] == x;
    }
  }

  /** An origin is configured exactly when it is non-empty and some comma-separated piece trims to it. */
  lemma ConfiguredMembers(origins: string, x: string)
    ensures x in ParseOrigins(origins) ==>
      x != "" && exists i :: 0 <= i < |Split(origins, ',')| && TrimSpace(Split(origins, ',')[i]) == x
    ensures (x != "" && exists i :: 0 <= i < |Split(origins, ',')| && TrimSpace(Split(origins, ',')[i]) == x)
      ==> x in ParseOrigins(origins)
  {
    TrimmedMembers(Split(origins, ','), x);
  }

  /** One more piece: its trimmed form, when non-empty, goes on the end of the list. */
  lemma TrimmedStep(pieces: seq<string>, i: nat)
    requires i < |pieces|
    ensures NonEmpty(TrimAll(pieces[..i + 1])) ==
      NonEmpty(TrimAll(pieces[..i])) + (if TrimSpace(pieces[i]) != "" then [TrimSpace(pieces[i])] else [])
  {
    assert pieces[..i + 1][..i] == pieces[..i];
  }

  /** Already-clean strings are kept as they are, in order. */
  lemma {:induction false} CleanKept(entries: seq<string>)
    requires forall i :: 0 <= i < |entries| ==> entries[i] != "" && Trimmed(entries[i])
    ensures NonEmpty(TrimAll(entries)) == entries
    decreases |entries|
  {
    if entries != [] {
      var front := entries[..|entries| - 1];
      assert forall i :: 0 <= i < |front| ==> front[i] == entries[i];
      CleanKept(front);
      FrontLast(entries);
    }
  }

  /** The empty string configures no origins. */
  lemma ParseEmpty()
    ensures ParseOrigins("") == []
  {
    assert Split("", ',') == [""];
    assert TrimAll([""]) == [""];
  }

  /**
   * The round trip: a non-empty list of clean, comma-free origins written out
   * comma-separated is read back as the same list. The empty list would be
   * written as "", which `SetAllowedOrigins` ignores rather than parses; its
   * parse is `ParseEmpty`.
   */
  lemma ParseOriginsRoundTrip(entries: seq<string>)
    requires |entries| >= 1
    requires forall i :: 0 <= i < |entries| ==> entries[i] != "" && Trimmed(entries[i]) && ',' !in entries[i]
    ensures ParseOrigins(Join(entries, ',')) == entries
  {
    SplitJoin(entries, ',');
    CleanKept(entries);
  }

  /** Whether `origin` is one of `allowed`: the search loop over the list. */
  function Listed(allowed: seq<string>, origin: string): (found: bool)
    ensures found <==> origin in allowed
    decreases |allowed|
  {
    if allowed == [] then false
    else allowed[0] == origin || Listed(allowed[1..], origin)
  }

  /** The process-wide allow-list that the WebSocket upgrader consults. */
  class OriginPolicy {
    var allowedOrigins: seq<string>

    /** The list as initialised at start-up. */
    constructor ()
      ensures allowedOrigins == DefaultAllowedOrigins
    {
      allowedOrigins := DefaultAllowedOrigins;
    }

    /**
     * An empty configuration keeps the current list; any other replaces it by
     * the comma-separated pieces, trimmed, with the empty ones dropped.
     */
    method SetAllowedOrigins(origins: string)
      modifies this
      ensures origins == "" ==> allowedOrigins == old(allowedOrigins)
      ensures origins != "" ==> allowedOrigins == ParseOrigins(origins)
    {
      if origins == "" {
        return;
      }
      allowedOrigins := [];
      var pieces := Split(origins, ',');
      var i := 0;
      while i < |pieces|
        invariant 0 <= i <= |pieces|
        invariant allowedOrigins == NonEmpty(TrimAll(pieces[..i]))
      {
        TrimmedStep(pieces, i);
        var trimmed := TrimSpace(pieces[i]);
        if trimmed != "" {
          allowedOrigins := allowedOrigins + [trimmed];
        }
        i := i + 1;
      }
      assert pieces[..i] == pieces;
    }

    /** A request without an origin passes; otherwise the origin must equal a listed entry. */
    function CheckOrigin(origin: string): (ok: bool)
      reads this
      ensures ok <==> origin == "" || origin in allowedOrigins
    {
      if origin == "" then true else Listed(allowedOrigins, origin)
    }
  }

  /** With the start-up list in place, only the two local origins (and none at all) pass. */
  lemma DefaultPolicyAccepts(policy: OriginPolicy, origin: string)
    requires policy.allowedOrigins == DefaultAllowedOrigins
    ensures policy.CheckOrigin(origin)
        <==> origin == "" || origin == "http://localhost:8080" || origin == "http://127.0.0.1:8080"
  {
  }

  /** After a non-empty configuration, an origin passes iff it is absent or some piece trims to it. */
  lemma ConfiguredPolicyAccepts(policy: OriginPolicy, origins: string, origin: string)
    requires origins != "" && policy.allowedOrigins == ParseOrigins(origins)
    ensures policy.CheckOrigin(origin) && origin != "" ==>
      exists i :: 0 <= i < |Split(origins, ',')| && TrimSpace(Split(origins, ',')[i]) == origin
    ensures (origin == "" || exists i :: 0 <= i < |Split(origins, ',')| && TrimSpace(Split(origins, ',')[i]) == origin)
      ==> policy.CheckOrigin(origin)
  {
    ConfiguredMembers(origins, origin);
  }

  // ---------------------------------------------------------------------------
  // Root path

  const StatusTemporaryRedirect := 307
  const StatusNotFound := 404
  const DefaultDocumentPath := "/doc/default"

  /** The two answers of the root handler. */
  datatype RootResponse = Redirect(location: string, status: int) | NotFound {
    function Status(): int {
      if Redirect? then status else StatusNotFound
    }
  }

  /** Exactly `/` is sent on to the default document; every other path is not found. */
  function HandleRoot(path: string): (r: RootResponse)
    ensures r.Redirect? <==> path == "/"
    ensures r.Redirect? ==> r.location == DefaultDocumentPath && r.Status() == StatusTemporaryRedirect
    ensures r.NotFound? ==> r.Status() == StatusNotFound
  {
    if path != "/" then NotFound else Redirect(DefaultDocumentPath, StatusTemporaryRedirect)
  }

  // ---------------------------------------------------------------------------
  // Cases from the handler tests

  lemma ValidIdExamples()
    ensures IsValidDocumentID("a") && IsValidDocumentID("A") && IsValidDocumentID("0")
    ensures IsValidDocumentID("-") && IsValidDocumentID("_")
    ensures IsValidDocumentID(seq(100, _ => 'a')) && !IsValidDocumentID(seq(101, _ => 'a'))
  {
    assert |seq(101, _ => 'a')| == 101;
  }

  lemma MixedIdValid()
    ensures IsValidDocumentID("My_Test-Doc-123")
  {
    var id := "My_Test-Doc-123";
    assert forall i :: 0 <= i < |id| ==> IsAlphanumericOrHyphenUnderscore(id[i]);
  }

  lemma InvalidIdExamples()
    ensures !IsValidDocumentID("") && !IsValidDocumentID("my test") && !IsValidDocumentID("my@test")
    ensures !IsValidDocumentID("my/test") && !IsValidDocumentID("my.test") && !IsValidDocumentID("test日本")
    ensures !IsValidDocumentID(seq(100, _ => '\0')) && !IsValidDocumentID(seq(101, _ => '\0'))
  {
    assert "my test"[2] == ' ' && "my@test"[2] == '@' && "my/test"[2] == '/' && "my.test"[2] == '.';
    assert "test日本"[4] == '日';
    assert seq(100, _ => '\0')[0] == '\0';
  }

  lemma ExtractValidExample()
    ensures ExtractDocumentID("/ws/test-doc", "/ws/") == Extraction("test-doc", None)
  {
    var id := "test-doc";
    assert forall i :: 0 <= i < |id| ==> IsAlphanumericOrHyphenUnderscore(id[i]);
    assert "/ws/test-doc" == "/ws/" + id;
    ExtractRoundTrip("/ws/", id);
  }

  lemma ExtractBlankExample()
    ensures ExtractDocumentID("/ws/   ", "/ws/").err == Some(ValidationError(FieldDocumentID, ReasonRequired))
  {
    var prefix, blank := "/ws/", "   ";
    assert "/ws/   " == prefix + blank;
    ExtractBlank(prefix, blank);
  }

  lemma ExtractEmptyExample()
    ensures ExtractDocumentID("/ws/", "/ws/").err == Some(ValidationError(FieldDocumentID, ReasonRequired))
  {
    var prefix := "/ws/";
    assert prefix == prefix + "";
    ExtractBlank(prefix, "");
  }

  lemma ExtractSlashExample()
    ensures ExtractDocumentID("/ws/doc/123", "/ws/").err == Some(ValidationError(FieldDocumentID, ReasonFormat))
  {
    var rest := "doc/123";
    assert "/ws/doc/123"[..4] == "/ws/" && "/ws/doc/123"[4..] == rest;
    assert TrimPrefix("/ws/doc/123", "/ws/") == rest;
    assert !IsSpace(rest[0]) && !IsSpace(rest[|rest| - 1]);
    assert TrimSpace(rest) == rest;
    assert rest[3] == '/';
    assert !IsValidDocumentID(rest);
  }
}
