/** `http_service_handle_request` and `log_http_attack`: the response a request gets and the
    attack record it leaves in the logger. */
module HttpService {
  import opened Text
  import opened AttackRecord
  import opened AttackLogger
  import opened HttpRequest
  import opened HttpResponse
  import opened Credentials

  /** The character sizes of the record's string buffers in `attack_log_t`, NUL included. The
      header that fixes them is not part of this model, so they are a parameter. */
  datatype FieldSizes = FieldSizes(sourceIp: nat, username: nat, password: nat, userAgent: nat, metadata: nat)

  /** Every buffer holds at least its NUL, and the two credential buffers hold at least the
      default `N/A` with its NUL. */
  predicate WellSized(z: FieldSizes) {
    && z.sourceIp >= 1 && z.userAgent >= 1 && z.metadata >= 1
    && z.username >= PointerSize && z.password >= PointerSize
  }

  /** The payload bytes the MD5 digest covers at most. */
  const HashLimit: nat := 512

  /** The `metadata` text before truncation. */
  function MetadataText(line: RequestLine): string {
    "Method: " + line.verb + ", Path: " + line.path
  }

  /** Username and password before the POST scan: `N/A` for both, the `Authorization` value
      replacing the password when it is not empty. */
  function HeaderCreds(req: Request, z: FieldSizes): (c: Creds)
    requires WellSized(z)
    ensures |c.username| < z.username && |c.password| < z.password
    ensures c.username == "N/A"
    ensures req.authorization == "" ==> c.password == "N/A"
    ensures req.authorization != "" ==> c.password <= req.authorization
  {
    Creds(Truncate("N/A", z.username - 1),
          if req.authorization != "" then Truncate(req.authorization, z.password - 1)
          else Truncate("N/A", z.password - 1))
  }

  /** The credentials the record ends with: the POST scan (method exactly `POST`) runs over the
      request text after the header step and may overwrite either field. The scan is the one
      the firmware runs, whose length tests allow at most two characters. */
  function RecordCreds(req: Request, text: string, z: FieldSizes): (c: Creds)
    requires WellSized(z)
    ensures |c.username| < z.username && |c.password| < z.password
    ensures req.line.verb != "POST" ==> c == HeaderCreds(req, z)
    ensures c.username == HeaderCreds(req, z).username || |c.username| <= 2
    ensures c.password == HeaderCreds(req, z).password || |c.password| <= 2
  {
    var base := HeaderCreds(req, z);
    if req.line.verb == "POST" then ExtractAsWritten(text, base) else base
  }

  /** The same step with the scan as evidently intended, whose length tests measure the
      record's own buffers. */
  function RecordCredsCorrected(req: Request, text: string, z: FieldSizes): (c: Creds)
    requires WellSized(z)
    ensures |c.username| < z.username && |c.password| < z.password
    ensures req.line.verb != "POST" ==> c == HeaderCreds(req, z)
  {
    var base := HeaderCreds(req, z);
    if req.line.verb == "POST" then ExtractCorrected(text, z.username, z.password, base) else base
  }

  /** `log_http_attack`: the record for a parsed request. `raw` is the received buffer, `digest`
      stands for `generate_md5_hash`. */
  function BuildRecord(req: Request, raw: string, clientIp: string, port: nat, now: int,
                       digest: string -> string, z: FieldSizes): (r: AttackLog)
    requires WellSized(z)
    ensures r.timestamp == now && r.targetPort == port && r.service == "HTTP"
    ensures |r.sourceIp| < z.sourceIp && |r.username| < z.username && |r.password| < z.password
    ensures |r.userAgent| < z.userAgent && |r.metadata| < z.metadata
    ensures r.sourceIp <= CStr(clientIp) && r.userAgent <= req.userAgent
    ensures r.metadata <= MetadataText(req.line)
    ensures |CStr(clientIp)| < z.sourceIp ==> r.sourceIp == CStr(clientIp)
    ensures |req.userAgent| < z.userAgent ==> r.userAgent == req.userAgent
    ensures |MetadataText(req.line)| < z.metadata ==> r.metadata == MetadataText(req.line)
    ensures Creds(r.username, r.password) == RecordCreds(req, CStr(raw), z)
  {
    var c := RecordCreds(req, CStr(raw), z);
    AttackLog(now, Truncate(CStr(clientIp), z.sourceIp - 1), port, "HTTP", c.username, c.password,
              Truncate(req.userAgent, z.userAgent - 1), digest(Truncate(raw, HashLimit)),
              Truncate(MetadataText(req.line), z.metadata - 1))
  }

  /** The console warning for paths that look like command or traversal attempts. */
  predicate SuspiciousPath(path: string) {
    Find(path, "/shell", 0).Some? || Find(path, "/cmd", 0).Some? ||
    Find(path, "/exec", 0).Some? || Find(path, "..", 0).Some?
  }

  /** What one request leaves behind: the response sent back, the logger, and whether the
      console warning was written. */
  datatype Outcome = Outcome(response: Reply, logger: Logger, warned: bool)

  /** `http_service_handle_request` on the received buffer `raw`, read as a C string for
      parsing. A parse failure gets the 400 and logs nothing; every parsed request gets the 403,
      whatever its path, and its record is logged. */
  function HandleRequest(l: Logger, raw: string, clientIp: string, port: nat, now: int,
                         digest: string -> string, z: FieldSizes): (r: Outcome)
    requires Valid(l) && WellSized(z)
    ensures |CStr(raw)| < 10 ==> r == Outcome(BadRequestResponse(), l, false)
    ensures |CStr(raw)| >= 10 ==>
              && r.response == ForbiddenResponse()
              && Valid(r.logger)
              && r.logger.stats.totalLogged == l.stats.totalLogged + 1
              && Contents(r.logger) == (if l.count < MaxLogEntries then Contents(l) else Contents(l)[1..])
                                       + [BuildRecord(ParseRequest(CStr(raw)).value, raw, clientIp, port, now, digest, z)]
    ensures r.warned <==> |CStr(raw)| >= 10 && SuspiciousPath(ScanRequestLine(CStr(raw)).path)
  {
    match ParseRequest(CStr(raw))
    case None => Outcome(BadRequestResponse(), l, false)
    case Some(req) =>
      var rec := BuildRecord(req, raw, clientIp, port, now, digest, z);
      Outcome(ForbiddenResponse(), Insert(l, rec, now), SuspiciousPath(req.line.path))
  }

  // ----- Which value each credential field ends with -----

  /** Without POST and without `Authorization`, both fields keep `N/A`. */
  lemma DefaultsWithoutCredentials(req: Request, text: string, z: FieldSizes)
    requires WellSized(z)
    requires req.line.verb != "POST" && req.authorization == ""
    ensures RecordCreds(req, text, z) == Creds("N/A", "N/A")
  {
  }

  /** Without POST, a non-empty `Authorization` value becomes the password. */
  lemma AuthorizationBecomesPassword(req: Request, text: string, z: FieldSizes)
    requires WellSized(z) && req.line.verb != "POST" && req.authorization != ""
    ensures RecordCreds(req, text, z).password == Truncate(req.authorization, z.password - 1)
    ensures RecordCreds(req, text, z).username == Truncate("N/A", z.username - 1)
  {
  }

  /** With POST, the last password marker whose value is shorter than `sizeof(char *) - 1`
      decides the password, whatever the `Authorization` header held; when none is that short,
      the header step's password stays. */
  lemma PostFormDecidesPassword(req: Request, text: string, z: FieldSizes)
    requires WellSized(z) && req.line.verb == "POST"
    ensures var vs := Values(text, PasswordMarkers);
            var k := LastFit(vs, PointerSize - 1);
            RecordCreds(req, text, z).password ==
              if k.Some? then Captured(vs[k.value].value) else HeaderCreds(req, z).password
  {
    LastMatchWins(Values(text, PasswordMarkers), PointerSize - 1, HeaderCreds(req, z).password);
  }

  /** With POST, the last username marker whose value is shorter than `sizeof(char *) - 1`
      decides the username; otherwise it stays `N/A`. */
  lemma PostFormDecidesUsername(req: Request, text: string, z: FieldSizes)
    requires WellSized(z) && req.line.verb == "POST"
    ensures var vs := Values(text, UsernameMarkers);
            var k := LastFit(vs, PointerSize - 1);
            RecordCreds(req, text, z).username ==
              if k.Some? then Captured(vs[k.value].value) else "N/A"
  {
    LastMatchWins(Values(text, UsernameMarkers), PointerSize - 1, HeaderCreds(req, z).username);
  }

  /** The example login form, posted without an `Authorization` header: the firmware records
      `N/A` for both fields, while the corrected scan records `admin` and `sup er@` once the
      buffers can hold them. */
  lemma LoginFormRecorded(req: Request, text: string, z: FieldSizes)
    requires WellSized(z) && req.line.verb == "POST" && req.authorization == ""
    requires text == LoginForm
    ensures RecordCreds(req, text, z) == Creds("N/A", "N/A")
    ensures z.username >= 7 && z.password >= 11 ==>
              RecordCredsCorrected(req, text, z) == Creds("admin", "sup er@")
  {
    AsWrittenDropsCredentials(text);
    if z.username >= 7 && z.password >= 11 {
      CorrectedKeepsCredentials(text, z.username, z.password);
    }
  }

  // ----- The payload hash and the metadata -----

  /** The digest sees at most the first 512 characters: what follows them never changes it. */
  lemma HashIgnoresTail(req: Request, raw: string, t: string, clientIp: string, port: nat, now: int,
                        digest: string -> string, z: FieldSizes)
    requires WellSized(z) && |raw| >= HashLimit
    ensures BuildRecord(req, raw + t, clientIp, port, now, digest, z).payloadHash
            == BuildRecord(req, raw, clientIp, port, now, digest, z).payloadHash
  {
    assert Truncate(raw + t, HashLimit) == Truncate(raw, HashLimit);
  }

  /** A payload of at most 512 characters is hashed whole. */
  lemma ShortPayloadHashedWhole(req: Request, raw: string, clientIp: string, port: nat, now: int,
                                digest: string -> string, z: FieldSizes)
    requires WellSized(z) && |raw| <= HashLimit
    ensures BuildRecord(req, raw, clientIp, port, now, digest, z).payloadHash == digest(raw)
  {
  }

  /** Metadata that fits its buffer is the whole `Method: <m>, Path: <p>` text. */
  lemma MetadataWhenItFits(req: Request, raw: string, clientIp: string, port: nat, now: int,
                           digest: string -> string, z: FieldSizes)
    requires WellSized(z) && |MetadataText(req.line)| < z.metadata
    ensures BuildRecord(req, raw, clientIp, port, now, digest, z).metadata == MetadataText(req.line)
  {
  }
}
