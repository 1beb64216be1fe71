/** Per-host session parameters (snmpScan.go, `snmpScan`, lines 35-71).

    The parameter record is the gosnmp.GoSNMP value `snmpScan` builds before
    connecting.  Versions, security model, message flags and the USM
    authentication and privacy protocols (user-based security model of
    RFC 3414, AES of RFC 3826, SHA-2 of RFC 7860) appear only as tags. */
module Session {
  import opened Results

  /** The `-c`, `-a` and `-p` flags. */
  datatype Credentials = Credentials(username: string, auth: string, priv: string)

  /** The flags every scan reads: `-m`, `-v`, `-at`, `-pt`, `-o`, `-vv`
      and `-n`. */
  datatype Input = Input(
    scanMethod: string,
    version: string,
    authType: string,
    privType: string,
    oid: string,
    verbose: bool,
    lineSize: int)

  datatype Version = Version1 | Version2c | Version3

  /** AuthUnset is the zero value a map lookup of an unknown key yields. */
  datatype AuthProtocol = AuthUnset | SHA | SHA256 | SHA512

  /** PrivUnset is the zero value a map lookup of an unknown key yields;
      "AES256" selects the AES256C protocol. */
  datatype PrivProtocol = PrivUnset | AES | AES192 | AES256C

  datatype SecurityModel = UserSecurityModel

  datatype MsgFlags = AuthPriv

  /** The USM security parameters of a version 3 session. */
  datatype Usm = Usm(
    userName: string,
    authProtocol: AuthProtocol,
    authPassphrase: string,
    privProtocol: PrivProtocol,
    privPassphrase: string)

  /** The fields of the connection parameters that `snmpScan` sets;
      `security` is None where the source leaves the pointer nil, and
      `community` is empty where the source leaves it unset. */
  datatype Params = Params(
    target: string,
    port: nat,
    securityModel: SecurityModel,
    msgFlags: MsgFlags,
    timeoutMs: nat,
    version: Version,
    community: string,
    security: Option<Usm>)

  const SnmpPort: nat := 161
  const TimeoutMs: nat := 1000

  /** The `authVar` map. */
  function AuthLookup(key: string): AuthProtocol
  {
    if key == "SHA" then SHA
    else if key == "SHA256" then SHA256
    else if key == "SHA512" then SHA512
    else AuthUnset
  }

  /** The `privVar` map. */
  function PrivLookup(key: string): PrivProtocol
  {
    if key == "AES" then AES
    else if key == "AES192" then AES192
    else if key == "AES256" then AES256C
    else PrivUnset
  }

  /** The key under which a protocol appears in `authVar`. */
  function AuthKey(p: AuthProtocol): string
    requires p != AuthUnset
  {
    match p
    case SHA => "SHA"
    case SHA256 => "SHA256"
    case SHA512 => "SHA512"
  }

  /** The key under which a protocol appears in `privVar`. */
  function PrivKey(p: PrivProtocol): string
    requires p != PrivUnset
  {
    match p
    case AES => "AES"
    case AES192 => "AES192"
    case AES256C => "AES256"
  }

  /** The authentication map is a bijection between its three keys and the
      three protocols; every other key gives the zero value. */
  lemma AuthLookupInverse(key: string, p: AuthProtocol)
    ensures p != AuthUnset ==> AuthLookup(AuthKey(p)) == p
    ensures AuthLookup(key) != AuthUnset <==> key in {"SHA", "SHA256", "SHA512"}
    ensures AuthLookup(key) != AuthUnset ==> AuthKey(AuthLookup(key)) == key
  {
  }

  /** The privacy map is a bijection between its three keys and the three
      protocols; every other key gives the zero value. */
  lemma PrivLookupInverse(key: string, p: PrivProtocol)
    ensures p != PrivUnset ==> PrivLookup(PrivKey(p)) == p
    ensures PrivLookup(key) != PrivUnset <==> key in {"AES", "AES192", "AES256"}
    ensures PrivLookup(key) != PrivUnset ==> PrivKey(PrivLookup(key)) == key
  {
  }

  /** The parameters `snmpScan` connects with: the fields common to every
      version first, then the version-specific ones.  "3" selects version 3
      with USM parameters; "2c" selects version 2c; any other text selects
      version 1.  The two community versions use the user name as the
      community string. */
  function SessionFor(target: string, creds: Credentials, input: Input): (p: Params)
    ensures p.target == target && p.port == 161 && p.timeoutMs == 1000
    ensures p.securityModel == UserSecurityModel && p.msgFlags == AuthPriv
    ensures p.version == Version3 <==> input.version == "3"
    ensures p.version == Version2c <==> input.version == "2c"
    ensures p.version == Version1 <==> input.version != "3" && input.version != "2c"
    ensures p.security.Some? <==> p.version == Version3
    ensures p.version != Version3 ==> p.community == creds.username
    ensures p.version == Version3 ==> p.community == [] && p.security.value.userName == creds.username
  {
    var params := Params(target, SnmpPort, UserSecurityModel, AuthPriv, TimeoutMs, Version1, [], None);
    if input.version == "3" then
      params.(
        version := Version3,
        security := Some(Usm(creds.username, AuthLookup(input.authType), creds.auth,
                             PrivLookup(input.privType), creds.priv)))
    else if input.version == "2c" then
      params.(version := Version2c, community := creds.username)
    else
      params.(version := Version1, community := creds.username)
  }

  /** For version 3 the protocols come from the two maps and the passphrases
      verbatim from the credentials; an unknown algorithm name silently
      selects no protocol. */
  lemma Version3Security(target: string, creds: Credentials, input: Input)
    requires input.version == "3"
    ensures SessionFor(target, creds, input).security
         == Some(Usm(creds.username, AuthLookup(input.authType), creds.auth,
                     PrivLookup(input.privType), creds.priv))
    ensures input.authType !in {"SHA", "SHA256", "SHA512"} ==>
      SessionFor(target, creds, input).security.value.authProtocol == AuthUnset
  {
  }
}
