/** The Basic credentials in a request header (the GET handler of
    communication/http/rest_server.cpp); section 2 of RFC 7617 defines their form. */
module Credentials {
  import opened Numbers
  import opened Sequences
  import opened Base64

  const COLON: uint8 := 58

  /** `HeaderTooShort` and `InvalidBase64` are exceptions in the program, `NoSeparator` its bad
      request. */
  datatype CredentialError = HeaderTooShort | InvalidBase64 | NoSeparator

  datatype Credential = Credential(username: seq<uint8>, password: seq<uint8>)

  function IsColon(): uint8 -> bool {
    (b: uint8) => b == COLON
  }

  /** The bytes before the first colon, and those after it. */
  function Split(credentials: seq<uint8>): Result<Credential, CredentialError> {
    var separator := FindIf(credentials, IsColon(), 0);
    if separator == |credentials| then Err(NoSeparator)
    else Ok(Credential(credentials[..separator], credentials[separator + 1..]))
  }

  /** The first six characters are dropped, whatever they are. */
  function ParseHeader(header: string): Result<Credential, CredentialError>
    requires |header| >= 6 ==> |header[6..]| % 4 != 1
  {
    if |header| < 6 then Err(HeaderTooShort)
    else
      match Decode64(header[6..])
      case Err(_) => Err(InvalidBase64)
      case Ok(credentials) => Split(credentials)
  }

  function Joined(c: Credential): seq<uint8> {
    c.username + [COLON] + c.password
  }

  /** Splitting succeeds exactly on bytes with a colon, undoes joining, and gives a name without a
      colon; so it recovers the parts that were joined exactly when the name had none. */
  lemma {:induction false} SplitMeans(credentials: seq<uint8>)
    ensures Split(credentials).Ok? <==> (':' as int) in credentials
    ensures Split(credentials).Err? ==> Split(credentials) == Err(NoSeparator)
    ensures Split(credentials).Ok? ==>
              var (name, password) := (Split(credentials).value.username, Split(credentials).value.password);
              credentials == name + [':' as int] + password && (':' as int) !in name
    ensures Split(credentials).Ok? ==> Joined(Split(credentials).value) == credentials
  {
    var separator := FindIf(credentials, IsColon(), 0);
    assert forall k :: 0 <= k < separator ==> !IsColon()(credentials[k]);
    if separator < |credentials| {
      assert IsColon()(credentials[separator]);
    }
  }

  lemma {:induction false} SplitOfJoined(c: Credential)
    ensures Joined(c) == c.username + [':' as int] + c.password
    ensures Split(c.username + [':' as int] + c.password) == Ok(c) <==> (':' as int) !in c.username
  {
    var bytes := Joined(c);
    SplitMeans(bytes);
    assert bytes[|c.username|] == COLON;
    if COLON !in c.username {
      assert forall k :: 0 <= k < |c.username| ==> bytes[k] == c.username[k] && !IsColon()(bytes[k]);
      assert IsColon()(bytes[|c.username|]);
      assert FindIf(bytes, IsColon(), 0) == |c.username|;
      assert bytes[..|c.username|] == c.username && bytes[|c.username| + 1..] == c.password;
    }
  }

  /** A header is refused exactly when it is too short, holds a character that is not base64, or
      decodes to bytes without a colon; otherwise its two parts joined are the decoded bytes. */
  lemma {:induction false} ParseMeans(header: string)
    requires |header| >= 6 ==> |header[6..]| % 4 != 1
    ensures |header| < 6 ==> ParseHeader(header) == Err(HeaderTooShort)
    ensures |header| >= 6 && !AllValid(header[6..]) ==> ParseHeader(header) == Err(InvalidBase64)
    ensures |header| >= 6 && AllValid(header[6..]) && ParseHeader(header).Err? ==>
              ParseHeader(header) == Err(NoSeparator)
    ensures ParseHeader(header).Ok? <==>
              && |header| >= 6 && AllValid(header[6..]) && (':' as int) in Decode64(header[6..]).value
    ensures ParseHeader(header).Ok? ==>
              var (name, password) := (ParseHeader(header).value.username, ParseHeader(header).value.password);
              Decode64(header[6..]) == Result.Ok(name + [':' as int] + password) && (':' as int) !in name
  {
    if |header| >= 6 && AllValid(header[6..]) {
      SplitMeans(Decode64(header[6..]).value);
    }
  }

  /** Any scheme of six characters followed by the encoding of name, colon and password parses to
      exactly those two parts if and only if the name has no colon and the password does not end
      in NUL; colons in the password do no harm. */
  lemma {:induction false} CredentialRoundTrip(scheme: string, c: Credential)
    requires |scheme| == 6
    ensures var text := Encode64(c.username + [':' as int] + c.password);
            && |(scheme + text)[6..]| % 4 != 1
            && (ParseHeader(scheme + text) == Ok(c) <==>
                (':' as int) !in c.username && (c.password == [] || c.password[|c.password| - 1] != 0))
  {
    var header, bytes := scheme + Encode64(Joined(c)), Joined(c);
    assert header[6..] == Encode64(bytes);
    RoundTrip(bytes);
    SplitMeans(TrimNul(bytes));
    SplitOfJoined(c);
    assert bytes[|bytes| - 1] == if c.password == [] then COLON else c.password[|c.password| - 1];
  }

  /** In particular for the scheme that clients send: the name and the password come back, each as
      itself. */
  lemma {:induction false} BasicRoundTrip(name: seq<uint8>, password: seq<uint8>)
    requires (':' as int) !in name && (password == [] || password[|password| - 1] != 0)
    ensures var header := "Basic " + Encode64(name + [':' as int] + password);
            && |header[6..]| % 4 != 1
            && ParseHeader(header).Ok?
            && ParseHeader(header).value.username == name && ParseHeader(header).value.password == password
  {
    CredentialRoundTrip("Basic ", Credential(name, password));
  }
}
