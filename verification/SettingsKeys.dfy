/** Key aliasing of src/base/settingsstorage.cpp: the names in current use and the legacy names they
    are stored under. The table is kept group by group, by the prefixes its names share. */
module SettingsKeys {

  datatype Group =
    | Bittorrent | Downloads | Connection | Advanced | General
    | Network | Dialog | DialogDownloads | DialogHistory | Other

  const GROUPS: seq<Group> := [
    Bittorrent, Downloads, Connection, Advanced, General, Network, Dialog, DialogDownloads, DialogHistory, Other
  ]

  /** What the current names of a group start with. */
  function Prefix(group: Group): string {
    match group
    case Bittorrent | Downloads | Connection | Advanced | General => "BitTorrent/Session/"
    case Network => "Network/"
    case Dialog | DialogDownloads | DialogHistory => "AddNewTorrentDialog/"
    case Other => ""
  }

  /** What their legacy names start with. */
  function LegacyPrefix(group: Group): string {
    match group
    case Bittorrent => "Preferences/Bittorrent/"
    case Downloads | DialogDownloads => "Preferences/Downloads/"
    case Connection | Network => "Preferences/Connection/"
    case Advanced => "Preferences/Advanced/"
    case General | Other => "Preferences/"
    case Dialog => "AddNewTorrentDialog/"
    case DialogHistory => "TorrentAdditionDlg/"
  }

  /** The names of a group without the prefixes, each with its legacy name. */
  function Names(group: Group): map<string, string> {
    match group
    case Bittorrent => BITTORRENT
    case Downloads => DOWNLOADS
    case Connection => CONNECTION
    case Advanced => ADVANCED
    case General => GENERAL
    case Network => NETWORK
    case Dialog => DIALOG
    case DialogDownloads => DIALOG_DOWNLOADS
    case DialogHistory => DIALOG_HISTORY
    case Other => OTHER
  }

  const BITTORRENT: map<string, string> := map[
    "MaxRatioAction" := "MaxRatioAction",
    "Encryption" := "Encryption",
    "MaxConnections" := "MaxConnecs",
    "MaxUploads" := "MaxUploads",
    "MaxConnectionsPerTorrent" := "MaxConnecsPerTorrent",
    "MaxUploadsPerTorrent" := "MaxUploadsPerTorrent",
    "DHTEnabled" := "DHT",
    "LSDEnabled" := "LSD",
    "PeXEnabled" := "PeX",
    "AddTrackersEnabled" := "AddTrackers",
    "AdditionalTrackers" := "TrackersList",
    "GlobalMaxRatio" := "MaxRatio",
    "uTPEnabled" := "uTP",
    "uTPRateLimited" := "uTP_rate_limited"
  ]

  const DOWNLOADS: map<string, string> := map[
    "DefaultSavePath" := "SavePath",
    "TempPath" := "TempPath",
    "TempPathEnabled" := "TempPathEnabled",
    "AddTorrentPaused" := "StartInPause",
    "Preallocation" := "PreAllocation",
    "AddExtensionToIncompleteFiles" := "UseIncompleteExtension",
    "TorrentExportDirectory" := "TorrentExportDir",
    "FinishedTorrentExportDirectory" := "FinishedTorrentExportDir",
    "SaveResumeDataInterval" := "SaveResumeDataInterval",
    "DiskCacheSize" := "DiskWriteCacheSize",
    "DiskCacheTTL" := "DiskWriteCacheTTL"
  ]

  const CONNECTION: map<string, string> := map[
    "GlobalUPSpeedLimit" := "GlobalUPLimit",
    "GlobalDLSpeedLimit" := "GlobalDLLimit",
    "AlternativeGlobalUPSpeedLimit" := "GlobalUPLimitAlt",
    "AlternativeGlobalDLSpeedLimit" := "GlobalDLLimitAlt",
    "UseAlternativeGlobalSpeedLimit" := "alt_speeds_on",
    "Port" := "PortRangeMin",
    "Interface" := "Interface",
    "InterfaceName" := "InterfaceName",
    "InterfaceAddress" := "InterfaceAddress",
    "ForceProxy" := "ProxyForce",
    "ProxyPeerConnections" := "ProxyPeerConnections",
    "AnnounceIP" := "InetAddress",
    "MaxHalfOpenConnections" := "MaxHalfOpenConnec"
  ]

  const ADVANCED: map<string, string> := map[
    "AnnounceToAllTrackers" := "AnnounceToAllTrackers",
    "UseOSCache" := "osCache",
    "AnonymousModeEnabled" := "AnonymousMode",
    "OutgoingPortsMin" := "OutgoingPortsMin",
    "OutgoingPortsMax" := "OutgoingPortsMax",
    "IgnoreLimitsOnLAN" := "IgnoreLimitsLAN",
    "IncludeOverheadInLimits" := "IncludeOverhead",
    "SuperSeedingEnabled" := "SuperSeeding"
  ]

  const GENERAL: map<string, string> := map[
    "RefreshInterval" := "General/RefreshInterval",
    "BandwidthSchedulerEnabled" := "Scheduler/Enabled",
    "UseRandomPort" := "General/UseRandomPort",
    "IPFilteringEnabled" := "IPFilter/Enabled",
    "TrackerFilteringEnabled" := "IPFilter/FilterTracker",
    "IPFilter" := "IPFilter/File",
    "QueueingSystemEnabled" := "Queueing/QueueingEnabled",
    "MaxActiveDownloads" := "Queueing/MaxActiveDownloads",
    "MaxActiveUploads" := "Queueing/MaxActiveUploads",
    "MaxActiveTorrents" := "Queueing/MaxActiveTorrents",
    "IgnoreSlowTorrentsForQueueing" := "Queueing/IgnoreSlowTorrents"
  ]

  const NETWORK: map<string, string> := map[
    "Proxy/OnlyForTorrents" := "ProxyOnlyForTorrents",
    "Proxy/Type" := "ProxyType",
    "Proxy/Authentication" := "Proxy/Authentication",
    "Proxy/Username" := "Proxy/Username",
    "Proxy/Password" := "Proxy/Password",
    "Proxy/IP" := "Proxy/IP",
    "Proxy/Port" := "Proxy/Port",
    "PortForwardingEnabled" := "UPnP"
  ]

  const DIALOG: map<string, string> := map[
    "TreeHeaderState" := "qt5/treeHeaderState",
    "Width" := "width",
    "Position" := "y",
    "Expanded" := "expanded"
  ]

  const DIALOG_DOWNLOADS: map<string, string> := map[
    "Enabled" := "NewAdditionDialog",
    "TopLevel" := "NewAdditionDialogFront"
  ]

  const DIALOG_HISTORY: map<string, string> := map[
    "SavePathHistory" := "save_path_history"
  ]

  const OTHER: map<string, string> := map[
    "BitTorrent/TrackerEnabled" := "Advanced/trackerEnabled",
    "State/BannedIPs" := "IPFilter/BannedIPs"
  ]

  predicate InGroup(key: string, group: Group) {
    Prefix(group) <= key && key[|Prefix(group)|..] in Names(group)
  }

  predicate IsAlias(key: string) {
    exists group: Group :: InGroup(key, group)
  }

  /** The groups are looked up in turn; a name in none of them is stored as it is. */
  function MapKeyIn(groups: seq<Group>, key: string): string {
    if groups == [] then key
    else if InGroup(key, groups[0]) then LegacyPrefix(groups[0]) + Names(groups[0])[key[|Prefix(groups[0])|..]]
    else MapKeyIn(groups[1..], key)
  }

  function MapKey(key: string): string {
    MapKeyIn(GROUPS, key)
  }

  // ----- an alias is in one group only ------------------------------------------------------

  predicate InSession(group: Group) {
    group.Bittorrent? || group.Downloads? || group.Connection? || group.Advanced? || group.General?
  }

  predicate InDialog(group: Group) {
    group.Dialog? || group.DialogDownloads? || group.DialogHistory?
  }

  /** A first letter tells the session's aliases, the network's and the dialog's. */
  lemma AliasLetters(key: string, group: Group)
    requires InGroup(key, group)
    ensures key != "" && key[0] in {'B', 'N', 'A', 'S'}
    ensures InSession(group) ==> key[0] == 'B' && |key| > 11 && key[11] == 'S'
    ensures group.Network? ==> key[0] == 'N'
    ensures InDialog(group) ==> key[0] == 'A' && |key| > 20 && 'A' <= key[20] <= 'Z'
    ensures group.Other? ==> (key[0] == 'B' && |key| > 11 && key[11] == 'T') || key[0] == 'S'
  {
    PrefixStart(group);
    if InDialog(group) {
      DialogLetters(key[|Prefix(group)|..], group);
    } else if group.Other? {
      assert key[0..] == key;
      OtherLetters(key);
    }
  }

  lemma PrefixStart(group: Group)
    ensures InSession(group) ==> |Prefix(group)| > 11 && Prefix(group)[0] == 'B' && Prefix(group)[11] == 'S'
    ensures group.Network? ==> |Prefix(group)| > 0 && Prefix(group)[0] == 'N'
    ensures InDialog(group) ==> |Prefix(group)| == 20 && Prefix(group)[0] == 'A'
    ensures group.Other? ==> |Prefix(group)| == 0
  {
  }

  lemma DialogLetters(rest: string, group: Group)
    requires InDialog(group) && rest in Names(group)
    ensures rest != "" && 'A' <= rest[0] <= 'Z'
  {
  }

  lemma OtherLetters(key: string)
    requires key in OTHER
    ensures (key != "" && key[0] == 'S') || (|key| > 11 && key[0] == 'B' && key[11] == 'T')
  {
  }

  lemma OneGroup(key: string, g: Group, h: Group)
    requires InGroup(key, g) && InGroup(key, h)
    ensures g == h
  {
    SamePrefix(key, g, h);
    if InSession(g) {
      OneSessionGroup(key[|Prefix(g)|..], g, h);
    } else if InDialog(g) {
      OneDialogGroup(key[|Prefix(g)|..], g, h);
    }
  }

  lemma SamePrefix(key: string, g: Group, h: Group)
    requires InGroup(key, g) && InGroup(key, h)
    ensures Prefix(g) == Prefix(h) && InSession(g) == InSession(h) && InDialog(g) == InDialog(h)
    ensures g.Network? || g.Other? ==> g == h
  {
    AliasLetters(key, g);
    AliasLetters(key, h);
  }

  lemma OneDialogGroup(rest: string, g: Group, h: Group)
    requires InDialog(g) && InDialog(h) && rest in Names(g) && rest in Names(h)
    ensures g == h
  {
    if rest in DIALOG {
      DialogNotMoved(rest);
    }
    if rest in DIALOG_DOWNLOADS {
      DownloadsNotHistory(rest);
    }
  }

  lemma DialogNotMoved(rest: string)
    requires rest in DIALOG
    ensures rest !in DIALOG_DOWNLOADS && rest !in DIALOG_HISTORY
  {
  }

  lemma DownloadsNotHistory(rest: string)
    requires rest in DIALOG_DOWNLOADS
    ensures rest !in DIALOG_HISTORY
  {
  }

  lemma OneSessionGroup(rest: string, g: Group, h: Group)
    requires InSession(g) && InSession(h) && rest in Names(g) && rest in Names(h)
    ensures g == h
  {
    if rest in BITTORRENT { BittorrentNotDownloads(rest); }
    if rest in BITTORRENT { BittorrentNotConnection(rest); }
    if rest in BITTORRENT { BittorrentNotAdvanced(rest); }
    if rest in BITTORRENT { BittorrentNotGeneral(rest); }
    if rest in DOWNLOADS { DownloadsNotConnection(rest); }
    if rest in DOWNLOADS { DownloadsNotAdvanced(rest); }
    if rest in DOWNLOADS { DownloadsNotGeneral(rest); }
    if rest in CONNECTION { ConnectionNotAdvanced(rest); }
    if rest in CONNECTION { ConnectionNotGeneral(rest); }
    if rest in ADVANCED { AdvancedNotGeneral(rest); }
  }

  lemma BittorrentNotDownloads(rest: string)
    requires rest in BITTORRENT
    ensures rest !in DOWNLOADS
  {
    if |rest| < 14 {
    }
  }

  lemma BittorrentNotConnection(rest: string)
    requires rest in BITTORRENT
    ensures rest !in CONNECTION
  {
  }

  lemma BittorrentNotAdvanced(rest: string)
    requires rest in BITTORRENT
    ensures rest !in ADVANCED
  {
  }

  lemma BittorrentNotGeneral(rest: string)
    requires rest in BITTORRENT
    ensures rest !in GENERAL
  {
  }

  lemma DownloadsNotConnection(rest: string)
    requires rest in DOWNLOADS
    ensures rest !in CONNECTION
  {
  }

  lemma DownloadsNotAdvanced(rest: string)
    requires rest in DOWNLOADS
    ensures rest !in ADVANCED
  {
  }

  lemma DownloadsNotGeneral(rest: string)
    requires rest in DOWNLOADS
    ensures rest !in GENERAL
  {
  }

  lemma ConnectionNotAdvanced(rest: string)
    requires rest in CONNECTION
    ensures rest !in ADVANCED
  {
  }

  lemma ConnectionNotGeneral(rest: string)
    requires rest in CONNECTION
    ensures rest !in GENERAL
  {
  }

  lemma AdvancedNotGeneral(rest: string)
    requires rest in ADVANCED
    ensures rest !in GENERAL
  {
  }

  // ----- what the mapping does --------------------------------------------------------------

  lemma {:induction false} FoundIn(groups: seq<Group>, key: string, group: Group)
    requires group in groups && InGroup(key, group)
    ensures MapKeyIn(groups, key) == LegacyPrefix(group) + Names(group)[key[|Prefix(group)|..]]
  {
    if InGroup(key, groups[0]) {
      OneGroup(key, groups[0], group);
    } else {
      FoundIn(groups[1..], key, group);
    }
  }

  lemma {:induction false} NotFoundIn(groups: seq<Group>, key: string)
    requires !IsAlias(key)
    ensures MapKeyIn(groups, key) == key
  {
    if groups != [] {
      NotFoundIn(groups[1..], key);
    }
  }

  /** Every listed name maps to its legacy name, whichever group comes first. */
  lemma AliasMapped(group: Group, rest: string)
    requires rest in Names(group)
    ensures IsAlias(Prefix(group) + rest)
    ensures MapKey(Prefix(group) + rest) == LegacyPrefix(group) + Names(group)[rest]
  {
    var key := Prefix(group) + rest;
    assert key[|Prefix(group)|..] == rest;
    assert InGroup(key, group);
    EveryGroup(group);
    FoundIn(GROUPS, key, group);
  }

  lemma EveryGroup(group: Group)
    ensures group in GROUPS
  {
    assert GROUPS[0] == Bittorrent && GROUPS[1] == Downloads && GROUPS[2] == Connection && GROUPS[3] == Advanced;
    assert GROUPS[4] == General && GROUPS[5] == Network && GROUPS[6] == Dialog && GROUPS[7] == DialogDownloads;
    assert GROUPS[8] == DialogHistory && GROUPS[9] == Other;
  }

  /** Any other name maps to itself. */
  lemma OthersKept(key: string)
    requires !IsAlias(key)
    ensures MapKey(key) == key
  {
    NotFoundIn(GROUPS, key);
  }

  // ----- no two aliases share a cell --------------------------------------------------------

  /** Two characters of a legacy name tell its section. */
  lemma PrefixLetters(group: Group, s: string)
    requires group.Dialog? || group.General? || group.Other? ==> s != ""
    ensures var legacy := LegacyPrefix(group) + s;
            && |legacy| > 12
            && (group.Dialog? ==> legacy[0] == 'A' && |legacy| > 20 && legacy[20] == s[0])
            && (group.DialogHistory? ==> legacy[0] == 'T')
            && (!group.Dialog? && !group.DialogHistory? ==> legacy[0] == 'P')
            && (group.Bittorrent? ==> legacy[12] == 'B')
            && (group.Downloads? || group.DialogDownloads? ==> legacy[12] == 'D')
            && (group.Connection? || group.Network? ==> legacy[12] == 'C')
            && (group.Advanced? ==> legacy[12] == 'A')
            && (group.General? || group.Other? ==> legacy[12] == s[0])
  {
  }

  lemma LegacyLetters(group: Group, rest: string)
    requires rest in Names(group)
    ensures var legacy := LegacyPrefix(group) + Names(group)[rest];
            && |legacy| > 12
            && (group.Dialog? ==> legacy[0] == 'A' && |legacy| > 20 && 'a' <= legacy[20] <= 'z')
            && (group.DialogHistory? ==> legacy[0] == 'T')
            && (!group.Dialog? && !group.DialogHistory? ==> legacy[0] == 'P')
            && (group.Bittorrent? ==> legacy[12] == 'B')
            && (group.Downloads? || group.DialogDownloads? ==> legacy[12] == 'D')
            && (group.Connection? || group.Network? ==> legacy[12] == 'C')
            && (group.Advanced? ==> legacy[12] == 'A')
            && (group.General? ==> legacy[12] in {'G', 'S', 'I', 'Q'})
            && (group.Other? ==> legacy[12] in {'A', 'I'})
  {
    if group.General? {
      GeneralLegacy(rest);
    } else if group.Other? {
      OtherLegacy(rest);
    } else if group.Dialog? {
      DialogLegacy(rest);
    }
    PrefixLetters(group, Names(group)[rest]);
  }

  lemma GeneralLegacy(rest: string)
    requires rest in GENERAL
    ensures GENERAL[rest] != "" && GENERAL[rest][0] in {'G', 'S', 'I', 'Q'}
  {
  }

  lemma OtherLegacy(rest: string)
    requires rest in OTHER
    ensures OTHER[rest] != "" && OTHER[rest][0] in {'A', 'I'}
  {
  }

  lemma DialogLegacy(rest: string)
    requires rest in DIALOG
    ensures DIALOG[rest] != "" && 'a' <= DIALOG[rest][0] <= 'z'
  {
  }

  lemma BittorrentApart(a: string, b: string)
    requires a in BITTORRENT && b in BITTORRENT && BITTORRENT[a] == BITTORRENT[b]
    ensures a == b
  {
  }

  lemma DownloadsApart(a: string, b: string)
    requires a in DOWNLOADS && b in DOWNLOADS && DOWNLOADS[a] == DOWNLOADS[b]
    ensures a == b
  {
  }

  lemma ConnectionApart(a: string, b: string)
    requires a in CONNECTION && b in CONNECTION && CONNECTION[a] == CONNECTION[b]
    ensures a == b
  {
  }

  lemma AdvancedApart(a: string, b: string)
    requires a in ADVANCED && b in ADVANCED && ADVANCED[a] == ADVANCED[b]
    ensures a == b
  {
  }

  lemma GeneralApart(a: string, b: string)
    requires a in GENERAL && b in GENERAL && GENERAL[a] == GENERAL[b]
    ensures a == b
  {
  }

  lemma NetworkApart(a: string, b: string)
    requires a in NETWORK && b in NETWORK && NETWORK[a] == NETWORK[b]
    ensures a == b
  {
  }

  lemma DialogApart(a: string, b: string)
    requires a in DIALOG && b in DIALOG && DIALOG[a] == DIALOG[b]
    ensures a == b
  {
  }

  lemma DialogDownloadsApart(a: string, b: string)
    requires a in DIALOG_DOWNLOADS && b in DIALOG_DOWNLOADS && DIALOG_DOWNLOADS[a] == DIALOG_DOWNLOADS[b]
    ensures a == b
  {
  }

  lemma OtherApart(a: string, b: string)
    requires a in OTHER && b in OTHER && OTHER[a] == OTHER[b]
    ensures a == b
  {
  }

  lemma ApartWithin(group: Group, a: string, b: string)
    requires a in Names(group) && b in Names(group) && Names(group)[a] == Names(group)[b]
    ensures a == b
  {
    match group
    case Bittorrent => BittorrentApart(a, b);
    case Downloads => DownloadsApart(a, b);
    case Connection => ConnectionApart(a, b);
    case Advanced => AdvancedApart(a, b);
    case General => GeneralApart(a, b);
    case Network => NetworkApart(a, b);
    case Dialog => DialogApart(a, b);
    case DialogDownloads => DialogDownloadsApart(a, b);
    case Other => OtherApart(a, b);
    case _ =>
  }

  lemma SessionNotNetwork(a: string, b: string)
    requires a in CONNECTION && b in NETWORK
    ensures CONNECTION[a] != NETWORK[b]
  {
  }

  lemma SessionNotDialog(a: string, b: string)
    requires a in DOWNLOADS && b in DIALOG_DOWNLOADS
    ensures DOWNLOADS[a] != DIALOG_DOWNLOADS[b]
  {
  }

  lemma GeneralNotOther(a: string, b: string)
    requires a in GENERAL && b in OTHER
    ensures GENERAL[a] != OTHER[b]
  {
  }

  lemma AdvancedNotOther(a: string, b: string)
    requires a in ADVANCED && b in OTHER
    ensures LegacyPrefix(Advanced) + ADVANCED[a] != LegacyPrefix(Other) + OTHER[b]
  {
  }

  lemma SameRest(prefix: string, x: string, y: string)
    requires prefix + x == prefix + y
    ensures x == y
  {
    assert (prefix + x)[|prefix|..] == x && (prefix + y)[|prefix|..] == y;
  }

  /** The pairs of groups that `GroupsApart` tells apart. */
  predicate SameSection(g: Group, h: Group) {
    || (g == Downloads && h == DialogDownloads)
    || (g == Connection && h == Network)
    || (g == General && h == Other)
    || (g == Advanced && h == Other)
  }

  lemma GroupsApart(g: Group, a: string, h: Group, b: string)
    requires a in Names(g) && b in Names(h)
    requires SameSection(g, h)
    ensures LegacyPrefix(g) + Names(g)[a] != LegacyPrefix(h) + Names(h)[b]
  {
    if g == Advanced {
      AdvancedNotOther(a, b);
    } else {
      if LegacyPrefix(g) + Names(g)[a] == LegacyPrefix(h) + Names(h)[b] {
        SameRest(LegacyPrefix(g), Names(g)[a], Names(h)[b]);
      }
      match g
      case Downloads => SessionNotDialog(a, b);
      case Connection => SessionNotNetwork(a, b);
      case General => GeneralNotOther(a, b);
    }
  }

  lemma SectionsApart(g: Group, a: string, h: Group, b: string)
    requires a in Names(g) && b in Names(h)
    requires LegacyPrefix(g) + Names(g)[a] == LegacyPrefix(h) + Names(h)[b]
    ensures g == h || SameSection(g, h) || SameSection(h, g)
  {
    LegacyLetters(g, a);
    LegacyLetters(h, b);
  }

  lemma LegacyApart(g: Group, a: string, h: Group, b: string)
    requires a in Names(g) && b in Names(h)
    requires LegacyPrefix(g) + Names(g)[a] == LegacyPrefix(h) + Names(h)[b]
    ensures g == h && a == b
  {
    SectionsApart(g, a, h, b);
    if g == h {
      SameRest(LegacyPrefix(g), Names(g)[a], Names(h)[b]);
      ApartWithin(g, a, b);
    } else if SameSection(g, h) {
      GroupsApart(g, a, h, b);
    } else {
      GroupsApart(h, b, g, a);
    }
  }

  lemma AliasParts(key: string) returns (group: Group, rest: string)
    requires IsAlias(key)
    ensures rest in Names(group) && key == Prefix(group) + rest
    ensures MapKey(key) == LegacyPrefix(group) + Names(group)[rest]
  {
    group :| InGroup(key, group);
    rest := key[|Prefix(group)|..];
    assert key == Prefix(group) + rest;
    AliasMapped(group, rest);
  }

  /** Two different aliases never share a cell. */
  lemma AliasesApart(a: string, b: string)
    requires IsAlias(a) && IsAlias(b) && a != b
    ensures MapKey(a) != MapKey(b)
  {
    var g, x := AliasParts(a);
    var h, y := AliasParts(b);
    if MapKey(a) == MapKey(b) {
      LegacyApart(g, x, h, y);
    }
  }

  /** A legacy name is no alias. */
  lemma LegacyIsNoAlias(group: Group, rest: string)
    requires rest in Names(group)
    ensures !IsAlias(LegacyPrefix(group) + Names(group)[rest])
  {
    var legacy := LegacyPrefix(group) + Names(group)[rest];
    LegacyLetters(group, rest);
    forall h: Group | InGroup(legacy, h)
      ensures false
    {
      AliasLetters(legacy, h);
    }
  }

  /** Mapping twice is mapping once: a current name and its legacy name denote one cell. */
  lemma MapKeyIdempotent(key: string)
    ensures MapKey(MapKey(key)) == MapKey(key)
  {
    if IsAlias(key) {
      var group, rest := AliasParts(key);
      LegacyIsNoAlias(group, rest);
    }
    OthersKept(if IsAlias(key) then MapKey(key) else key);
  }

  /** Exactly which names denote one cell: a name and itself, and an alias and its legacy name. */
  lemma SameCellIff(a: string, b: string)
    ensures MapKey(a) == MapKey(b) <==>
            a == b || (IsAlias(a) && MapKey(a) == b) || (IsAlias(b) && MapKey(b) == a)
  {
    MapKeyIdempotent(a);
    MapKeyIdempotent(b);
    if IsAlias(a) && IsAlias(b) {
      if a != b {
        AliasesApart(a, b);
      }
    } else if IsAlias(a) {
      OthersKept(b);
    } else {
      OthersKept(a);
      if !IsAlias(b) {
        OthersKept(b);
      }
    }
  }

  /** The port is kept where it has always been. */
  lemma PortIsAliased()
    ensures MapKey("BitTorrent/Session/Port") == "Preferences/Connection/PortRangeMin"
  {
    PortListed();
    AliasMapped(Connection, "Port");
    PortNames();
  }

  lemma PortNames()
    ensures Prefix(Connection) + "Port" == "BitTorrent/Session/Port"
    ensures LegacyPrefix(Connection) + "PortRangeMin" == "Preferences/Connection/PortRangeMin"
  {
  }

  lemma PortListed()
    ensures "Port" in CONNECTION && CONNECTION["Port"] == "PortRangeMin"
  {
  }
}
