/**
 * Zend_Validate_EmailAddressViaSmtp: the address check of `isValid` and the
 * choice of mail servers at the start of `_checkNetwork`.
 *
 * The DNS answers are inputs (a `Dns` snapshot), as is whether `dns_get_mx` exists
 * on the running system. The SMTP exchange that follows the choice of servers is
 * not modelled: a verdict of `Probe` says that control reaches it, and with which
 * servers.
 */
module EmailAddressViaSmtp {
  import opened Php
  import opened Pattern

  /** The error keys `isValid` can record. The class declares six more
      (INVALID_HOSTNAME, DNS_TIMEOUT, UNKNOWN_USER, SMTP_TIMEOUT, SMTP_UNREACHABLE,
      MAILBOX_FULL) that no code path records. */
  datatype ErrorCode = Invalid | InvalidFormat | InvalidMxRecord

  /** The message key each error code stands for; keys are distinct and share the
      validator's prefix. */
  function MessageKey(c: ErrorCode): (k: string)
    ensures |k| > 19 && k[..19] == "emailAddressViaSmtp"
  {
    match c
    case Invalid => "emailAddressViaSmtpInvalid"
    case InvalidFormat => "emailAddressViaSmtpInvalidFormat"
    case InvalidMxRecord => "emailAddressViaSmtpInvalidMxRecord"
  }

  lemma MessageKeysDistinct(c: ErrorCode, d: ErrorCode)
    ensures MessageKey(c) == MessageKey(d) <==> c == d
  {
  }

  /** What `isValid` did: returned false after recording an error, threw
      Zend_Validate_Exception, or went on to probe the given SMTP servers. */
  datatype Verdict =
    | Failed(code: ErrorCode)
    | Thrown(message: string)
    | Probe(username: string, hostname: string, servers: seq<string>)

  const MxUnavailableMessage := "Internal error: MX checking not available on this system"

  /** The error keys `_error` recorded on the way to a verdict. */
  function Recorded(v: Verdict): seq<ErrorCode> {
    if v.Failed? then [v.code] else []
  }

  /** The address parts `isValid` hands to `_checkNetwork`, or the error it records. */
  datatype Address = Rejected(code: ErrorCode) | Address(username: string, hostname: string)

  /** A hostname PHP's `!` treats as false. */
  predicate IsFalsyHostname(h: string) {
    !Truthy(Str(h))
  }

  /** The pairs `isValid` hands on: no line feed anywhere, no '@' in the hostname,
      a hostname PHP considers true, and no strippable character at the outer ends. */
  predicate WellFormed(u: string, h: string) {
    && '\n' !in u && '\n' !in h && '@' !in h
    && !IsFalsyHostname(h)
    && (u == [] || !IsTrimSpace(u[0]))
    && !IsTrimSpace(h[|h| - 1])
  }

  /** The type test, `trim`, the pattern match and the `!$hostname` test of
      `isValid`. An unmatched group reads as null, which PHP treats as false. */
  function ParseAddress(value: Value): Address
  {
    if !value.Str? then Rejected(Invalid)
    else
      var m := MatchAddress(Trim(value.s));
      var hostname := if m.Some? then Str(m.value.1) else Null;
      if !Truthy(hostname) then Rejected(InvalidFormat)
      else Address(m.value.0, m.value.1)
  }

  /** The DNS as the validator sees it: the MX hosts `dns_get_mx` fills in, in
      answer order (an empty list when the query fails), and the address list of
      `gethostbynamel`, absent where that function returns false. */
  datatype Dns = Dns(mx: map<string, seq<string>>, addresses: map<string, seq<string>>) {
    function MxHosts(hostname: string): seq<string> {
      if hostname in mx then mx[hostname] else []
    }
    function HostAddresses(hostname: string): Option<seq<string>> {
      if hostname in addresses then Some(addresses[hostname]) else None
    }
  }

  datatype Selection = MxUnavailable | NoMailServer | Servers(hosts: seq<string>)

  /** The servers `_checkNetwork` will contact. Without `dns_get_mx` there is no
      selection at all; otherwise the MX hosts are used as they are, and only when
      there are none the address records; when neither gives anything (an empty
      list or false) there is no server. */
  function SelectMailServers(mxSupported: bool, mx: seq<string>, addresses: Option<seq<string>>): (r: Selection)
    ensures r.MxUnavailable? <==> !mxSupported
    ensures r.NoMailServer? <==> mxSupported && mx == [] && (addresses.None? || addresses.value == [])
    ensures r.Servers? ==> r.hosts != []
    ensures r.Servers? ==> r.hosts == mx || (mx == [] && addresses == Some(r.hosts))
  {
    if !mxSupported then MxUnavailable
    else if |mx| >= 1 then Servers(mx)
    else if addresses.None? || addresses.value == [] then NoMailServer
    else Servers(addresses.value)
  }

  /** The verdict of `_checkNetwork` up to the SMTP loop. */
  function NetworkVerdict(username: string, hostname: string, mxSupported: bool, dns: Dns): Verdict
  {
    match SelectMailServers(mxSupported, dns.MxHosts(hostname), dns.HostAddresses(hostname))
    case MxUnavailable => Thrown(MxUnavailableMessage)
    case NoMailServer => Failed(InvalidMxRecord)
    case Servers(hosts) => Probe(username, hostname, hosts)
  }

  /** The verdict of `isValid`. */
  function Validate(value: Value, mxSupported: bool, dns: Dns): Verdict
  {
    match ParseAddress(value)
    case Rejected(code) => Failed(code)
    case Address(u, h) => NetworkVerdict(u, h, mxSupported, dns)
  }

  /** The validator object. `errors` holds the keys `_error` has recorded, oldest
      first; `mxSupported` is what `validateMxSupported` reports on this system. */
  class Validator {
    const mxSupported: bool
    var errors: seq<ErrorCode>

    constructor (mxSupported: bool)
      ensures this.mxSupported == mxSupported && errors == []
    {
      this.mxSupported := mxSupported;
      errors := [];
    }

    method IsValid(value: Value, dns: Dns) returns (r: Verdict)
      modifies this
      ensures r == Validate(value, mxSupported, dns)
      ensures errors == old(errors) + Recorded(r)
    {
      if !value.Str? {
        errors := errors + [Invalid];
        return Failed(Invalid);
      }
      var m := MatchAddress(Trim(value.s));
      var username := if m.Some? then Str(m.value.0) else Null;
      var hostname := if m.Some? then Str(m.value.1) else Null;
      if !Truthy(hostname) {
        errors := errors + [InvalidFormat];
        return Failed(InvalidFormat);
      }
      r := CheckNetwork(username.s, hostname.s, dns);
    }

    method CheckNetwork(username: string, hostname: string, dns: Dns) returns (r: Verdict)
      modifies this
      ensures r == NetworkVerdict(username, hostname, mxSupported, dns)
      ensures errors == old(errors) + Recorded(r)
    {
      var mailServers: seq<string> := [];
      if mxSupported {
        mailServers := dns.MxHosts(hostname);
        if |mailServers| < 1 {
          var found := dns.HostAddresses(hostname);
          if found.None? || found.value == [] {
            errors := errors + [InvalidMxRecord];
            return Failed(InvalidMxRecord);
          }
          mailServers := found.value;
        }
      } else {
        return Thrown(MxUnavailableMessage);
      }
      return Probe(username, hostname, mailServers);
    }
  }

  // ---------------------------------------------------------------------------
  // Properties of the address check

  /** Exactly the non-strings fail with INVALID, whatever the DNS and the system
      say: the network stage is not reached for them. */
  lemma NonStringIsInvalid(value: Value, mxSupported: bool, dns: Dns)
    ensures Validate(value, mxSupported, dns) == Failed(Invalid) <==> !value.Str?
  {
  }

  /** Strippable characters around the value do not change the outcome. */
  lemma PaddingIgnored(p: string, s: string, q: string)
    requires AllTrimSpace(p) && AllTrimSpace(q)
    ensures ParseAddress(Str(p + s + q)) == ParseAddress(Str(s))
  {
    TrimIgnoresPadding(p, s, q);
  }

  /** An accepted address is split at the last '@' of the trimmed value, and the
      parts are well formed. */
  lemma AcceptedIsSplitAtLastAt(s: string)
    requires ParseAddress(Str(s)).Address?
    ensures Trim(s) == ParseAddress(Str(s)).username + "@" + ParseAddress(Str(s)).hostname
    ensures WellFormed(ParseAddress(Str(s)).username, ParseAddress(Str(s)).hostname)
  {
    var t := Trim(s);
    var a := ParseAddress(Str(s));
    var u, h := a.username, a.hostname;
    assert MatchAddress(t) == Some((u, h)) && !IsFalsyHostname(h);
    MatchAddressSplitsAtLastAt(t);
    assert DropFinalLineFeed(t) == t;
    assert t == u + "@" + h;
    assert u != [] ==> u[0] == t[0];
    assert h[|h| - 1] == t[|t| - 1];
  }

  /** A trimmed value without an '@', or with a line feed, does not match the
      pattern and is rejected as INVALID_FORMAT. */
  lemma UnmatchedIsInvalidFormat(s: string)
    requires '@' !in Trim(s) || '\n' in Trim(s)
    ensures ParseAddress(Str(s)) == Rejected(InvalidFormat)
  {
    var t := Trim(s);
    assert DropFinalLineFeed(t) == t;
    assert MatchAddress(t).None?;
  }

  /** When the value ends in a kept character, a matched hostname is exactly what
      follows the value's last '@'. */
  lemma HostnameFollowsLastAt(u: string, h: string)
    requires '@' !in h
    requires !IsTrimSpace((u + "@" + h)[|u + "@" + h| - 1])
    requires MatchAddress(Trim(u + "@" + h)).Some?
    ensures MatchAddress(Trim(u + "@" + h)).value.1 == h
  {
    var s := u + "@" + h;
    var pre := TrimOfKeptLast(s);
    MatchOfSuffixCapturesTail(u, h, pre, Trim(s));
  }

  /** With "" or "0" after the last '@', that is what the pattern captures as
      the hostname, if it matches at all. */
  lemma FalsyHostnameCaptured(u: string, h: string)
    requires h == "" || h == "0"
    ensures MatchAddress(Trim(u + "@" + h)).None? || MatchAddress(Trim(u + "@" + h)).value.1 == h
  {
    var s := u + "@" + h;
    assert s[|s| - 1] == '@' || s[|s| - 1] == '0';
    if MatchAddress(Trim(s)).Some? {
      HostnameFollowsLastAt(u, h);
    }
  }

  /** A hostname of "" or "0" is rejected as INVALID_FORMAT, whatever precedes
      the '@'. */
  lemma FalsyHostnameIsInvalidFormat(u: string, h: string)
    requires h == "" || h == "0"
    ensures ParseAddress(Str(u + "@" + h)) == Rejected(InvalidFormat)
  {
    FalsyHostnameCaptured(u, h);
    HostnameDecides(u + "@" + h, h);
  }

  /** The verdict on a string is fixed once its matched hostname is known to be
      falsy. */
  lemma HostnameDecides(s: string, h: string)
    requires IsFalsyHostname(h)
    requires MatchAddress(Trim(s)).None? || MatchAddress(Trim(s)).value.1 == h
    ensures ParseAddress(Str(s)) == Rejected(InvalidFormat)
  {
  }

  /** Round trip: a well-formed pair, joined by '@', parses back to itself. With
      AcceptedIsSplitAtLastAt this makes WellFormed exactly the set of pairs
      `isValid` can hand to `_checkNetwork`. */
  lemma RoundTrip(u: string, h: string)
    requires WellFormed(u, h)
    ensures ParseAddress(Str(u + "@" + h)) == Address(u, h)
  {
    var s := u + "@" + h;
    assert IsTrimmed(s) by {
      assert s[0] == if u == [] then '@' else u[0];
      assert s[|s| - 1] == h[|h| - 1];
    }
    assert [] + s + [] == s;
    TrimUnique([], s, []);
    MatchAddressOfJoin(u, h);
  }

  /** The split falls at the last '@'. */
  lemma ExampleLastAt()
    ensures ParseAddress(Str("a@b@c")) == Address("a@b", "c")
  {
    assert "a@b@c" == "a@b" + "@" + "c";
    RoundTrip("a@b", "c");
  }

  /** A plain address splits into its two parts. */
  lemma ExamplePlain()
    ensures ParseAddress(Str("a@b")) == Address("a", "b")
  {
    assert "a@b" == "a" + "@" + "b";
    RoundTrip("a", "b");
  }

  /** Padding of spaces and a trailing line feed is removed before matching. */
  lemma ExamplePadding()
    ensures ParseAddress(Str("  a@b \n")) == Address("a", "b")
  {
    var p, q := "  ", " \n";
    assert AllTrimSpace(p) && AllTrimSpace(q);
    assert "  a@b \n" == p + "a@b" + q;
    PaddingIgnored(p, "a@b", q);
    ExamplePlain();
  }

  /** An empty username is accepted. */
  lemma ExampleEmptyUsername()
    ensures ParseAddress(Str("@example.com")) == Address("", "example.com")
  {
    assert "@example.com" == "" + "@" + "example.com";
    RoundTrip("", "example.com");
  }

  /** The hostname "0" is rejected. */
  lemma ExampleZeroHostname()
    ensures ParseAddress(Str("a@0")) == Rejected(InvalidFormat)
  {
    assert "a@0" == "a" + "@" + "0";
    FalsyHostnameIsInvalidFormat("a", "0");
  }

  /** An internal line feed is rejected. */
  lemma ExampleLineFeed()
    ensures ParseAddress(Str("a\nb@c")) == Rejected(InvalidFormat)
  {
    var s := "a\nb@c";
    assert [] + s + [] == s;
    TrimUnique([], s, []);
    assert s[1] == '\n';
    UnmatchedIsInvalidFormat(s);
  }

  // ---------------------------------------------------------------------------
  // Properties of the whole check

  /** Without `dns_get_mx` a well-formed address makes the validator throw; it
      never reports INVALID_MX_RECORD and never probes. */
  lemma MxUnavailableThrows(value: Value, dns: Dns)
    ensures Validate(value, false, dns).Failed? ==> Validate(value, false, dns).code != InvalidMxRecord
    ensures !Validate(value, false, dns).Probe?
    ensures Validate(value, false, dns).Thrown? <==> ParseAddress(value).Address?
  {
  }

  /** INVALID_MX_RECORD is recorded exactly when the address is well formed, MX
      checking is available, and neither MX nor address records exist for the
      hostname. */
  lemma InvalidMxRecordExactly(value: Value, mxSupported: bool, dns: Dns)
    ensures Validate(value, mxSupported, dns) == Failed(InvalidMxRecord) <==>
      && ParseAddress(value).Address?
      && mxSupported
      && dns.MxHosts(ParseAddress(value).hostname) == []
      && (dns.HostAddresses(ParseAddress(value).hostname).None?
          || dns.HostAddresses(ParseAddress(value).hostname).value == [])
  {
  }

  /** When the validator goes on to SMTP, it does so for the parsed address, with
      a non-empty server list: the MX hosts unchanged and in order when there are
      any, the address records otherwise. */
  lemma ProbeUsesSelectedServers(value: Value, mxSupported: bool, dns: Dns)
    requires Validate(value, mxSupported, dns).Probe?
    ensures ParseAddress(value) == Address(Validate(value, mxSupported, dns).username,
                                           Validate(value, mxSupported, dns).hostname)
    ensures var p := Validate(value, mxSupported, dns);
      && mxSupported
      && p.servers != []
      && (dns.MxHosts(p.hostname) != [] ==> p.servers == dns.MxHosts(p.hostname))
      && (dns.MxHosts(p.hostname) == [] ==> dns.HostAddresses(p.hostname) == Some(p.servers))
  {
  }

  /** A value that fails the address check gets the same verdict whatever the
      network says: no DNS answer can influence it. */
  lemma RejectedIgnoresNetwork(value: Value, mxSupported: bool, dns: Dns, mxSupported': bool, dns': Dns)
    requires ParseAddress(value).Rejected?
    ensures Validate(value, mxSupported, dns) == Validate(value, mxSupported', dns')
    ensures Validate(value, mxSupported, dns).Failed?
    ensures Validate(value, mxSupported, dns).code == InvalidFormat <==> value.Str?
  {
  }
}
