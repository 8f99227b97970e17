/** What a modified configuration says of each setting. */
module OpenVpnOptions {
  import opened Wrappers
  import opened OpenVpnExtract
  import opened OpenVpnConf

  // -------------------------------------------------------- the lines of one option

  ghost function Pick(option: string, line: string): seq<string> {
    if option <= line then [line] else []
  }

  /** The lines that begin with an option, in order. */
  ghost function LinesOf(option: string, lines: seq<string>): seq<string> {
    if lines == [] then [] else Pick(option, lines[0]) + LinesOf(option, lines[1..])
  }

  lemma {:induction false} LinesOfConcat(option: string, a: seq<string>, b: seq<string>)
    ensures LinesOf(option, a + b) == LinesOf(option, a) + LinesOf(option, b)
  {
    hide Pick;
    if a == [] {
      assert a + b == b;
    } else {
      assert (a + b)[1..] == a[1..] + b;
      LinesOfConcat(option, a[1..], b);
    }
  }

  lemma LineOf(option: string, line: string)
    ensures LinesOf(option, [line]) == Pick(option, line)
  {
    assert [line][1..] == [];
  }

  lemma LinesOfTwo(option: string, a: string, b: string)
    ensures LinesOf(option, [a, b]) == Pick(option, a) + Pick(option, b)
  {
    hide Pick;
    assert [a, b] == [a] + [b];
    LinesOfConcat(option, [a], [b]);
    LineOf(option, a);
    LineOf(option, b);
  }

  lemma LinesOfThree(option: string, a: string, b: string, c: string)
    ensures LinesOf(option, [a, b, c]) == Pick(option, a) + Pick(option, b) + Pick(option, c)
  {
    hide Pick;
    assert [a, b, c] == [a, b] + [c];
    LinesOfConcat(option, [a, b], [c]);
    LinesOfTwo(option, a, b);
    LineOf(option, c);
  }

  lemma LinesOfSix(option: string, a: string, b: string, c: string, d: string, e: string, f: string)
    ensures LinesOf(option, [a, b, c, d, e, f])
            == Pick(option, a) + Pick(option, b) + Pick(option, c) + (Pick(option, d) + Pick(option, e) + Pick(option, f))
  {
    hide Pick;
    assert [a, b, c, d, e, f] == [a, b, c] + [d, e, f];
    LinesOfConcat(option, [a, b, c], [d, e, f]);
    LinesOfThree(option, a, b, c);
    LinesOfThree(option, d, e, f);
  }

  lemma LinesOfChunks(option: string, a: seq<string>, b: seq<string>, c: seq<string>)
    ensures LinesOf(option, a + b + c) == LinesOf(option, a) + LinesOf(option, b) + LinesOf(option, c)
  {
    hide LinesOf;
    LinesOfConcat(option, a + b, c);
    LinesOfConcat(option, a, b);
  }

  lemma NoLinesOf(option: string)
    ensures LinesOf(option, []) == []
  {
  }

  /** The settings that are written on lines of their own. */
  datatype Option =
    | Proto | Remote | Dev | Verb | AuthUserPass | User | Auth | MssFix | DataCiphers | DataCiphersFallback

  function Name(o: Option): string {
    match o
    case Proto => "proto "
    case Remote => "remote "
    case Dev => "dev "
    case Verb => "verb "
    case AuthUserPass => "auth-user-pass "
    case User => "user "
    case Auth => "auth "
    case MssFix => "mssfix "
    case DataCiphers => "data-ciphers "
    case DataCiphersFallback => "data-ciphers-fallback "
  }

  lemma Differs(option: string, line: string, i: nat)
    requires i < |option| && i < |line| && option[i] != line[i]
    ensures Pick(option, line) == []
  {
  }

  lemma NotMuteReplayWarnings(o: Option)
    ensures Pick(Name(o), "mute-replay-warnings") == [] && Pick(Name(o), "suppress-timestamps") == []
  {
    Differs(Name(o), "mute-replay-warnings", if o.MssFix? then 1 else 0);
    Differs(Name(o), "suppress-timestamps", 0);
  }

  lemma NotAuth(o: Option)
    ensures Pick(Name(o), "auth-nocache") == [] && Pick(Name(o), "auth-retry nointeract") == []
  {
    Differs(Name(o), "auth-nocache", if o.AuthUserPass? then 5 else if o.Auth? then 4 else 0);
    Differs(Name(o), "auth-retry nointeract", if o.AuthUserPass? then 5 else if o.Auth? then 4 else 0);
  }

  lemma NotPersist(o: Option)
    ensures Pick(Name(o), "persist-tun") == [] && Pick(Name(o), "persist-key") == [] && Pick(Name(o), "") == []
  {
    Differs(Name(o), "persist-tun", if o.Proto? then 1 else 0);
    Differs(Name(o), "persist-key", if o.Proto? then 1 else 0);
  }

  lemma NotPullFilter(o: Option)
    ensures Pick(Name(o), "pull-filter ignore \"auth-token\"") == []
    ensures Pick(Name(o), "pull-filter ignore \"route-ipv6\"") == []
    ensures Pick(Name(o), "pull-filter ignore \"ifconfig-ipv6\"") == []
  {
    Differs(Name(o), "pull-filter ignore \"auth-token\"", if o.Proto? then 1 else 0);
    Differs(Name(o), "pull-filter ignore \"route-ipv6\"", if o.Proto? then 1 else 0);
    Differs(Name(o), "pull-filter ignore \"ifconfig-ipv6\"", if o.Proto? then 1 else 0);
  }

  /** Where the names of two options differ. */
  function DifferAt(o: Option, other: Option): nat {
    if o.Auth? || other.Auth? then (if o.AuthUserPass? || other.AuthUserPass? then 4 else 0)
    else if (o.DataCiphers? && other.DataCiphersFallback?) || (o.DataCiphersFallback? && other.DataCiphers?) then 12
    else if o.Dev? || other.Dev? then (if o.DataCiphers? || o.DataCiphersFallback? || other.DataCiphers?
                                          || other.DataCiphersFallback? then 1 else 0)
    else 0
  }

  lemma NamesDiffer(o: Option, other: Option)
    requires o != other
    ensures var i := DifferAt(o, other); i < |Name(o)| && i < |Name(other)| && Name(o)[i] != Name(other)[i]
  {
  }

  /** A line for an option is a line for no other option. */
  lemma OptionLine(o: Option, other: Option, value: string)
    ensures Pick(Name(o), Name(other) + value) == if o == other then [Name(o) + value] else []
  {
    if o == other {
      assert Name(o) <= Name(o) + value;
    } else {
      NamesDiffer(o, other);
      hide Name, DifferAt;
      Differs(Name(o), Name(other) + value, DifferAt(o, other));
    }
  }

  // ------------------------------------------------------- what is added and kept

  /** The lines that a setting calls for. */
  ghost function LinesFor(o: Option, t: Target, s: Settings): seq<string> {
    match o
    case Proto => ["proto " + t.protocol]
    case Remote => ["remote " + t.ip + " " + Decimal(t.port)]
    case Dev => ["dev " + s.interfaceName]
    case Verb => ["verb " + s.verbosity]
    case AuthUserPass => if s.user == "" then [] else ["auth-user-pass /etc/openvpn/auth.conf"]
    case User => if s.processUser == "root" then [] else ["user " + s.processUser]
    case Auth => if s.auth == "" then [] else ["auth " + s.auth]
    case MssFix => if s.mssFix == 0 then [] else ["mssfix " + Decimal(s.mssFix)]
    case DataCiphers => if s.ciphers == [] then [] else ["data-ciphers " + JoinWithColons(s.ciphers)]
    case DataCiphersFallback => if s.ciphers == [] then [] else ["data-ciphers-fallback " + s.ciphers[0]]
  }

  /** The lines of the file that say something else are dropped. */
  predicate Overrides(o: Option, s: Settings) {
    match o
    case Auth => s.auth != ""
    case MssFix => s.mssFix > 0
    case DataCiphers => s.ciphers != []
    case DataCiphersFallback => s.ciphers != []
    case _ => true
  }

  lemma RemoteLinesFor(o: Option, t: Target, s: Settings)
    ensures LinesOf(Name(o), RemoteLines(t)) == if o.Proto? || o.Remote? then LinesFor(o, t, s) else []
  {
    hide Pick;
    var address := t.ip + " " + Decimal(t.port);
    assert Name(Proto) + t.protocol == "proto " + t.protocol;
    assert Name(Remote) + address == "remote " + t.ip + " " + Decimal(t.port);
    LinesOfTwo(Name(o), RemoteLines(t)[0], RemoteLines(t)[1]);
    OptionLine(o, Proto, t.protocol);
    OptionLine(o, Remote, address);
  }

  lemma FlagsFor(o: Option, s: Settings)
    ensures LinesOf(Name(o), ["dev " + s.interfaceName, "mute-replay-warnings", "auth-nocache",
                              "pull-filter ignore \"auth-token\"", "auth-retry nointeract", "suppress-timestamps"])
            == if o.Dev? then ["dev " + s.interfaceName] else []
  {
    hide Pick, LinesOf;
    LinesOfSix(Name(o), "dev " + s.interfaceName, "mute-replay-warnings", "auth-nocache",
               "pull-filter ignore \"auth-token\"", "auth-retry nointeract", "suppress-timestamps");
    NotMuteReplayWarnings(o);
    NotAuth(o);
    NotPullFilter(o);
    OptionLine(o, Dev, s.interfaceName);
  }

  lemma LoginFor(o: Option, s: Settings)
    ensures LinesOf(Name(o), if s.user != "" then ["auth-user-pass " + AUTH_CONF] else [])
            == if o.AuthUserPass? && s.user != "" then ["auth-user-pass /etc/openvpn/auth.conf"] else []
  {
    hide Pick, LinesOf;
    NoLinesOf(Name(o));
    LineOf(Name(o), "auth-user-pass " + AUTH_CONF);
    OptionLine(o, AuthUserPass, AUTH_CONF);
    assert "auth-user-pass " + AUTH_CONF == "auth-user-pass /etc/openvpn/auth.conf";
  }

  lemma VerbFor(o: Option, s: Settings)
    ensures LinesOf(Name(o), ["verb " + s.verbosity]) == if o.Verb? then ["verb " + s.verbosity] else []
  {
    hide Pick, LinesOf;
    LineOf(Name(o), "verb " + s.verbosity);
    OptionLine(o, Verb, s.verbosity);
  }

  lemma FixedLinesFor(o: Option, t: Target, s: Settings)
    ensures LinesOf(Name(o), FixedLines(s)) == if o.Dev? || o.Verb? || o.AuthUserPass? then LinesFor(o, t, s) else []
  {
    hide LinesOf, Decimal, Name;
    FlagsFor(o, s);
    LoginFor(o, s);
    VerbFor(o, s);
    LinesOfChunks(Name(o),
                  ["dev " + s.interfaceName, "mute-replay-warnings", "auth-nocache", "pull-filter ignore \"auth-token\"",
                   "auth-retry nointeract", "suppress-timestamps"],
                  if s.user != "" then ["auth-user-pass " + AUTH_CONF] else [], ["verb " + s.verbosity]);
  }

  lemma CipherLinesFor(o: Option, t: Target, s: Settings)
    ensures LinesOf(Name(o), CipherLines(s.ciphers))
            == if o.DataCiphers? || o.DataCiphersFallback? then LinesFor(o, t, s) else []
  {
    hide Pick, LinesOf, JoinWithColons, Decimal;
    NoLinesOf(Name(o));
    if s.ciphers != [] {
      LinesOfTwo(Name(o), CipherLines(s.ciphers)[0], CipherLines(s.ciphers)[1]);
      OptionLine(o, DataCiphersFallback, s.ciphers[0]);
      OptionLine(o, DataCiphers, JoinWithColons(s.ciphers));
    }
  }

  lemma SecurityLinesFor(o: Option, s: Settings)
    ensures LinesOf(Name(o), if s.auth != "" then ["auth " + s.auth] else [])
            == if o.Auth? && s.auth != "" then ["auth " + s.auth] else []
    ensures LinesOf(Name(o), if s.mssFix > 0 then ["mssfix " + Decimal(s.mssFix)] else [])
            == if o.MssFix? && s.mssFix > 0 then ["mssfix " + Decimal(s.mssFix)] else []
  {
    hide Pick, LinesOf, Decimal;
    NoLinesOf(Name(o));
    LineOf(Name(o), "auth " + s.auth);
    LineOf(Name(o), "mssfix " + Decimal(s.mssFix));
    OptionLine(o, Auth, s.auth);
    OptionLine(o, MssFix, Decimal(s.mssFix));
  }

  lemma LastLinesFor(o: Option, s: Settings, ipv6Supported: bool)
    ensures LinesOf(Name(o), if !ipv6Supported then
                               ["pull-filter ignore \"route-ipv6\"", "pull-filter ignore \"ifconfig-ipv6\""] else []) == []
    ensures LinesOf(Name(o), if s.processUser != "root" then
                               ["user " + s.processUser, "persist-tun", "persist-key"] else [])
            == if o.User? && s.processUser != "root" then ["user " + s.processUser] else []
    ensures LinesOf(Name(o), [""]) == []
  {
    hide Pick, LinesOf;
    NoLinesOf(Name(o));
    LinesOfTwo(Name(o), "pull-filter ignore \"route-ipv6\"", "pull-filter ignore \"ifconfig-ipv6\"");
    LinesOfThree(Name(o), "user " + s.processUser, "persist-tun", "persist-key");
    LineOf(Name(o), "");
    NotPersist(o);
    NotPullFilter(o);
    OptionLine(o, User, s.processUser);
  }

  lemma OptionalLinesFor(o: Option, t: Target, s: Settings, ipv6Supported: bool)
    ensures LinesOf(Name(o), OptionalLines(s, ipv6Supported))
            == if o.DataCiphers? || o.DataCiphersFallback? || o.Auth? || o.MssFix? || o.User? then LinesFor(o, t, s) else []
  {
    hide LinesOf, Decimal, CipherLines, JoinWithColons, Name;
    CipherLinesFor(o, t, s);
    SecurityLinesFor(o, s);
    LastLinesFor(o, s, ipv6Supported);
    var auth := if s.auth != "" then ["auth " + s.auth] else [];
    var mssFix := if s.mssFix > 0 then ["mssfix " + Decimal(s.mssFix)] else [];
    var ipv6 := if !ipv6Supported then ["pull-filter ignore \"route-ipv6\"", "pull-filter ignore \"ifconfig-ipv6\""] else [];
    var user := if s.processUser != "root" then ["user " + s.processUser, "persist-tun", "persist-key"] else [];
    LinesOfChunks(Name(o), CipherLines(s.ciphers), auth, mssFix);
    LinesOfChunks(Name(o), CipherLines(s.ciphers) + auth + mssFix, ipv6, user);
    LinesOfConcat(Name(o), CipherLines(s.ciphers) + auth + mssFix + ipv6 + user, [""]);
  }

  lemma AddedFor(o: Option, t: Target, s: Settings, ipv6Supported: bool)
    ensures LinesOf(Name(o), Added(t, s, ipv6Supported)) == LinesFor(o, t, s)
  {
    hide LinesOf, LinesFor, RemoteLines, FixedLines, OptionalLines, Name;
    LinesOfConcat(Name(o), RemoteLines(t), FixedLines(s) + OptionalLines(s, ipv6Supported));
    LinesOfConcat(Name(o), FixedLines(s), OptionalLines(s, ipv6Supported));
    RemoteLinesFor(o, t, s);
    FixedLinesFor(o, t, s);
    OptionalLinesFor(o, t, s, ipv6Supported);
  }

  lemma OneOption(o: Option, other: Option, line: string)
    requires Name(o) <= line && Name(other) <= line
    ensures o == other
  {
    if o != other {
      NamesDiffer(o, other);
      hide Name, DifferAt;
      assert false;
    }
  }

  lemma NotAlwaysAdded(o: Option, line: string)
    requires Name(o) <= line
    ensures line != "" && !IsAlwaysAdded(line)
  {
    hide Name;
    NotMuteReplayWarnings(o);
    NotAuth(o);
    NotPullFilter(o);
    NotPersist(o);
  }

  lemma AlwaysModified(o: Option, line: string)
    requires Name(o) <= line
    ensures IsAlwaysModified(line) <==>
            o.Proto? || o.Remote? || o.Dev? || o.Verb? || o.AuthUserPass? || o.User?
  {
    if IsAlwaysModified(line) {
      var other := if "verb " <= line then Verb else if "auth-user-pass " <= line then AuthUserPass
                   else if "user " <= line then User else if "proto " <= line then Proto
                   else if "remote " <= line then Remote else Dev;
      OneOption(o, other, line);
    }
  }

  lemma NoCipherOrIpv6(o: Option, line: string)
    requires Name(o) <= line && !o.Proto?
    ensures HasOneOf(line, CIPHER_PREFIXES) <==> o.DataCiphers? || o.DataCiphersFallback?
    ensures !HasOneOf(line, IPV6_PREFIXES)
  {
    assert line[0] == Name(o)[0];
    if o.DataCiphers? {
      assert CIPHER_PREFIXES[2] <= line;
    } else if o.DataCiphersFallback? {
      assert CIPHER_PREFIXES[3] <= line;
    } else if HasOneOf(line, CIPHER_PREFIXES) {
      assert !("cipher " <= line) && !("ncp-ciphers " <= line);
      OneOption(o, if "data-ciphers " <= line then DataCiphers else DataCiphersFallback, line);
    }
  }

  lemma RemovedIff(o: Option, line: string, s: Settings, ipv6Supported: bool)
    requires Name(o) <= line
    ensures Removed(line, s, ipv6Supported) <==> Overrides(o, s)
  {
    NotAlwaysAdded(o, line);
    AlwaysModified(o, line);
    if !o.Proto? {
      NoCipherOrIpv6(o, line);
    }
    hide IsAlwaysAdded, IsAlwaysModified, HasOneOf;
    if "auth " <= line {
      OneOption(o, Auth, line);
    }
    if "mssfix " <= line {
      OneOption(o, MssFix, line);
    }
  }

  lemma {:induction false} KeptFor(o: Option, lines: seq<string>, s: Settings, ipv6Supported: bool)
    ensures LinesOf(Name(o), Kept(lines, s, ipv6Supported)) == if Overrides(o, s) then [] else LinesOf(Name(o), lines)
  {
    hide Removed, Name, Overrides;
    if lines != [] {
      KeptFor(o, lines[1..], s, ipv6Supported);
      var tail := Kept(lines[1..], s, ipv6Supported);
      assert [] + tail == tail && ([lines[0]] + tail)[1..] == tail;
      if Name(o) <= lines[0] {
        RemovedIff(o, lines[0], s, ipv6Supported);
      }
    }
  }

  /**
    What the modified configuration says of each setting: what was asked for, once, and nothing else;
    of a setting that nothing was asked for, what the file says.
   */
  lemma SettingsAreWritten(o: Option, lines: seq<string>, t: Target, s: Settings, ipv6Supported: bool)
    ensures LinesOf(Name(o), Modified(lines, t, s, ipv6Supported))
            == (if Overrides(o, s) then [] else LinesOf(Name(o), lines)) + LinesFor(o, t, s)
  {
    hide LinesOf, LinesFor, Kept, Added, Name, Overrides;
    LinesOfConcat(Name(o), Kept(lines, s, ipv6Supported), Added(t, s, ipv6Supported));
    KeptFor(o, lines, s, ipv6Supported);
    AddedFor(o, t, s, ipv6Supported);
  }

  // ------------------------------------------------------- lines without a value

  const FLAGS := ["mute-replay-warnings", "auth-nocache", "pull-filter ignore \"auth-token\"", "auth-retry nointeract",
                  "suppress-timestamps"]

  /** The lines that are always written are, and so are those for an unprivileged process and without IPv6. */
  lemma FlagsAreWritten(lines: seq<string>, t: Target, s: Settings, ipv6Supported: bool)
    ensures var modified := Modified(lines, t, s, ipv6Supported);
            && (forall k :: 0 <= k < |FLAGS| ==> FLAGS[k] in modified)
            && (s.processUser != "root" ==> "persist-tun" in modified && "persist-key" in modified)
            && (!ipv6Supported ==> "pull-filter ignore \"route-ipv6\"" in modified
                                   && "pull-filter ignore \"ifconfig-ipv6\"" in modified)
            && modified[|modified| - 1] == ""
  {
    hide Kept, CipherLines, Decimal;
    var modified := Modified(lines, t, s, ipv6Supported);
    var before := Kept(lines, s, ipv6Supported) + RemoteLines(t);
    assert modified == before + (FixedLines(s) + OptionalLines(s, ipv6Supported));
    forall k | 0 <= k < |FLAGS| ensures FLAGS[k] in modified {
      assert FixedLines(s)[k + 1] == FLAGS[k];
      assert FixedLines(s)[k + 1] in FixedLines(s);
    }
    hide FixedLines;
    if s.processUser != "root" {
      var user := ["user " + s.processUser, "persist-tun", "persist-key"];
      assert user[1] in user && user[2] in user;
    }
    if !ipv6Supported {
      var ipv6 := ["pull-filter ignore \"route-ipv6\"", "pull-filter ignore \"ifconfig-ipv6\""];
      assert ipv6[0] in ipv6 && ipv6[1] in ipv6;
    }
  }
}
