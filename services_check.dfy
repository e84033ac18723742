/**
  The service drift matcher of services_check.py: the service names found in
  the text that `sc query` prints, less a fixed set of default services,
  listed in sorted order in a list box whose contents can be saved as text.
  The command's output is an input string; the list box is an object whose
  items the scan replaces.
 */
module ServicesCheck {
  import opened Wrappers
  import opened Text
  import opened Order

  /** Services of a clean default installation. */
  const DefaultServices: set<string> := {
    "AeLookupSvc", "Appinfo", "AppMgmt", "AudioSrv", "BITS", "BrokerInfrastructure",
    "CertPropSvc", "CoreMessagingRegistrar", "CryptSvc", "DcomLaunch", "Dhcp",
    "Dnscache", "EventLog", "EventSystem", "FontCache", "gpsvc", "IKEEXT",
    "iphlpsvc", "LanmanServer", "LanmanWorkstation", "lmhosts", "Netman", "NlaSvc",
    "PlugPlay", "Power", "RpcSs", "Schedule", "SENS", "ShellHWDetection", "Spooler",
    "Themes", "Winmgmt"
  }

  const ServicePrefix: string := "SERVICE_NAME:"

  /** A line of `sc query` output that, stripped, starts with the service prefix. */
  predicate IsServiceLine(line: string) {
    StartsWith(Strip(line), ServicePrefix)
  }

  /** The name such a line carries: `line.split("SERVICE_NAME:")[1].strip()` of the stripped line. */
  function ServiceNameOf(line: string): (name: string)
    requires IsServiceLine(line)
    ensures Stripped(name)
  {
    Strip(SecondField(Strip(line), ServicePrefix))
  }

  /** A name is a piece of its line, so a line without breaks gives a name without breaks. */
  lemma ServiceNameNoBreaks(line: string)
    requires IsServiceLine(line) && NoBreaks(line)
    ensures NoBreaks(ServiceNameOf(line))
  {
    StripNoBreaks(line);
    SecondFieldNoBreaks(Strip(line), ServicePrefix);
    StripNoBreaks(SecondField(Strip(line), ServicePrefix));
  }

  /** What one line of `sc query` output adds to the set: a service name, or nothing. */
  function LineService(line: string): Option<string>
  {
    if IsServiceLine(line) then Some(ServiceNameOf(line)) else None
  }

  /** The names among per-line results. */
  function Collected(found: seq<Option<string>>): set<string>
  {
    if found == [] then {}
    else
      Collected(found[..|found| - 1]) + (match found[|found| - 1] case Some(n) => {n} case None => {})
  }

  /** A name is collected exactly when some line yielded it. */
  lemma {:induction false} CollectedIff(found: seq<Option<string>>, name: string)
    ensures name in Collected(found) <==> exists i :: 0 <= i < |found| && found[i] == Some(name)
    decreases |found|
  {
    if found != [] {
      var init := found[..|found| - 1];
      CollectedIff(init, name);
      if name in Collected(init) {
        var i :| 0 <= i < |init| && init[i] == Some(name);
        assert found[i] == init[i];
      }
      if exists i :: 0 <= i < |found| && found[i] == Some(name) {
        var i :| 0 <= i < |found| && found[i] == Some(name);
        if i < |init| {
          assert init[i] == found[i];
        }
      }
    }
  }

  /** One more line's result adds its name, if any, to what was collected before it. */
  lemma CollectedSnoc(found: seq<Option<string>>, i: nat)
    requires i < |found|
    ensures Collected(found[..i + 1]) == Collected(found[..i]) + (match found[i] case Some(n) => {n} case None => {})
  {
    assert found[..i + 1][..i] == found[..i];
  }

  /** Each line's result, in order. */
  function Parsed(lines: seq<string>): seq<Option<string>>
  {
    seq(|lines|, i requires 0 <= i < |lines| => LineService(lines[i]))
  }

  /** The set `get_current_services` builds from the lines it reads. */
  function ServicesIn(lines: seq<string>): set<string>
  {
    Collected(Parsed(lines))
  }

  /** `get_current_services` applied to the text `sc query` printed. */
  method GetCurrentServices(stdout: string) returns (services: set<string>)
    ensures services == ServicesIn(SplitLines(stdout))
  {
    var lines := SplitLines(stdout);
    ghost var found := Parsed(lines);
    services := {};
    for i := 0 to |lines|
      invariant services == Collected(found[..i])
    {
      CollectedSnoc(found, i);
      var line := Strip(lines[i]);
      if StartsWith(line, ServicePrefix) {
        var name := Strip(SecondField(line, ServicePrefix));
        services := services + {name};
      }
    }
    assert found[..|lines|] == found;
  }

  /** A name is found exactly when some service line carries it; every other line is ignored. */
  lemma ServicesInIff(lines: seq<string>, name: string)
    ensures name in ServicesIn(lines) <==>
      exists i :: 0 <= i < |lines| && IsServiceLine(lines[i]) && ServiceNameOf(lines[i]) == name
  {
    var found := Parsed(lines);
    assert |found| == |lines| && forall i :: 0 <= i < |lines| ==> found[i] == LineService(lines[i]);
    CollectedIff(found, name);
  }

  /** No name read from the output of a command spans a line break. */
  lemma ServiceNamesHaveNoBreaks(lines: seq<string>)
    requires forall i :: 0 <= i < |lines| ==> NoBreaks(lines[i])
    ensures forall name :: name in ServicesIn(lines) ==> NoBreaks(name)
  {
    forall name | name in ServicesIn(lines) ensures NoBreaks(name) {
      ServicesInIff(lines, name);
      var i :| 0 <= i < |lines| && IsServiceLine(lines[i]) && ServiceNameOf(lines[i]) == name;
      ServiceNameNoBreaks(lines[i]);
    }
  }

  /**
    The line `sc query` prints for a service reads back as that service's
    name, provided the name is stripped and does not itself hold the prefix.
   */
  lemma ServiceLineReadsBack(name: string)
    requires Stripped(name)
    requires forall k :: !OccursAt(name, ServicePrefix, k)
    ensures IsServiceLine(ServicePrefix + " " + name)
    ensures ServiceNameOf(ServicePrefix + " " + name) == name
  {
    if name == [] {
      EmptyServiceLine();
      return;
    }
    var line := ServicePrefix + " " + name;
    var n := |ServicePrefix|;
    assert Strip(line) == line by {
      assert [] + line + [] == line;
      StripPadded([], line, []);
    }
    assert line[..n] == ServicePrefix;
    PrefixOnlyInFront(name);
    SecondFieldUpTo(line, ServicePrefix, |line|);
    assert line[n..] == [' '] + name + [];
    StripPadded([' '], name, []);
  }

  /** A service line with nothing after the prefix gives the empty name. */
  lemma EmptyServiceLine()
    ensures IsServiceLine(ServicePrefix + " " + [])
    ensures ServiceNameOf(ServicePrefix + " " + []) == []
  {
    var line := ServicePrefix + " " + [];
    assert line == [] + ServicePrefix + [' '];
    StripPadded([], ServicePrefix, [' ']);
    assert ServicePrefix[..|ServicePrefix|] == ServicePrefix;
    SecondFieldUpTo(ServicePrefix, ServicePrefix, |ServicePrefix|);
    assert ServicePrefix[|ServicePrefix|..] == [];
  }

  /** In such a line the prefix occurs nowhere after its first position. */
  lemma PrefixOnlyInFront(name: string)
    requires forall k :: !OccursAt(name, ServicePrefix, k)
    ensures forall k :: |ServicePrefix| <= k < |ServicePrefix + " " + name| ==>
      !OccursAt(ServicePrefix + " " + name, ServicePrefix, k)
  {
    var line := ServicePrefix + " " + name;
    var n := |ServicePrefix|;
    forall k | n <= k < |line| ensures !OccursAt(line, ServicePrefix, k) {
      if k == n {
        assert line[k] != ServicePrefix[0];
      } else if OccursAt(line, ServicePrefix, k) {
        var j := k - n - 1;
        assert line[k..k + n] == name[j..j + n];
        assert OccursAt(name, ServicePrefix, j);
      }
    }
  }

  /** `line.split(...)[1]` stops at a second prefix: only the text between the two is the name. */
  lemma SecondPrefixCutsName()
    ensures ServiceNameOf(ServicePrefix + " Alpha " + ServicePrefix + " Beta") == "Alpha"
  {
    var mid := " Alpha ";
    var line := ServicePrefix + mid + ServicePrefix + " Beta";
    assert Strip(line) == line by {
      assert [] + line + [] == line;
      StripPadded([], line, []);
    }
    assert line[..13] == ServicePrefix;
    assert line[13..20] == mid;
    assert line[20..33] == ServicePrefix;
    forall k | 13 <= k < 20 ensures !OccursAt(line, ServicePrefix, k) {
      assert line[k] == mid[k - 13];
      assert line[k..k + 13][0] == line[k];
    }
    SecondFieldUpTo(line, ServicePrefix, 20);
    assert mid == [' '] + "Alpha" + [' '];
    StripPadded([' '], "Alpha", [' ']);
  }

  /** The listing `scan_services` shows for a given output: strictly sorted, holding exactly the extra services. */
  ghost predicate IsExtraListing(listing: seq<string>, stdout: string, defaults: set<string>) {
    && StrictlySorted(listing)
    && forall name :: name in listing <==> name in ServicesIn(SplitLines(stdout)) && name !in defaults
  }

  /** `current - default_services`, listed as `sorted` lists it. */
  method ExtraServices(stdout: string, defaults: set<string>) returns (listing: seq<string>)
    ensures IsExtraListing(listing, stdout, defaults)
  {
    var current := GetCurrentServices(stdout);
    var extras := current - defaults;
    listing := SortNames(extras);
    assert forall name :: name in listing <==> name in Elements(listing);
  }

  /** There is only one such listing: it is `sorted(current - defaults)`. */
  lemma ExtraListingUnique(a: seq<string>, b: seq<string>, stdout: string, defaults: set<string>)
    requires IsExtraListing(a, stdout, defaults) && IsExtraListing(b, stdout, defaults)
    ensures a == b
  {
    assert Elements(a) == Elements(b) by {
      forall x ensures x in Elements(a) <==> x in Elements(b) {
        assert x in Elements(a) <==> x in a;
        assert x in Elements(b) <==> x in b;
      }
    }
    SortedUnique(a, b);
  }

  /** Nothing is listed exactly when every service found is a default one. */
  lemma NothingListedIffAllDefault(listing: seq<string>, stdout: string, defaults: set<string>)
    requires IsExtraListing(listing, stdout, defaults)
    ensures listing == [] <==> ServicesIn(SplitLines(stdout)) <= defaults
  {
    var current := ServicesIn(SplitLines(stdout));
    if listing == [] {
      forall name | name in current ensures name in defaults {
        assert name !in listing;
      }
    } else {
      assert listing[0] in listing;
    }
  }

  /** Matching is by exact name: a found `spooler` is listed although `Spooler` is a default service. */
  lemma SpoolerSpelledLowerIsExtra(listing: seq<string>, stdout: string)
    requires IsExtraListing(listing, stdout, DefaultServices)
    requires "spooler" in ServicesIn(SplitLines(stdout))
    ensures "Spooler" in DefaultServices
    ensures "spooler" in listing
  {
    SpoolerSpellings();
  }

  lemma SpoolerSpellings()
    ensures "Spooler" in DefaultServices && "spooler" !in DefaultServices
  {
  }

  /** The list box that shows the extra services. */
  class ServiceList {
    var items: seq<string>

    constructor ()
      ensures items == []
    {
      items := [];
    }

    /** `delete(0, END)`. */
    method Clear()
      modifies this
      ensures items == []
    {
      items := [];
    }

    /** `insert(END, name)`. */
    method Append(name: string)
      modifies this
      ensures items == old(items) + [name]
    {
      items := items + [name];
    }
  }

  /**
    `scan_services`: the list box is emptied and then shows exactly the
    extra services, in sorted order; nothing from an earlier scan remains.
   */
  method ScanServices(box: ServiceList, stdout: string)
    modifies box
    ensures IsExtraListing(box.items, stdout, DefaultServices)
  {
    var listing := ExtraServices(stdout, DefaultServices);
    box.Clear();
    for i := 0 to |listing|
      invariant box.items == listing[..i]
    {
      box.Append(listing[i]);
    }
    assert listing[..|listing|] == listing;
  }

  const SavedHeader: string := "Extra Services:"

  /** One `- name` line per listed service, in list order. */
  function SavedBody(items: seq<string>): string
  {
    if items == [] then "" else "- " + items[0] + "\n" + SavedBody(items[1..])
  }

  /** The text `save_results` writes for the list box's items. */
  function SavedText(items: seq<string>): string
  {
    SavedHeader + "\n" + SavedBody(items)
  }

  lemma {:induction false} SavedBodySnoc(items: seq<string>, name: string)
    ensures SavedBody(items + [name]) == SavedBody(items) + "- " + name + "\n"
    decreases |items|
  {
    if items == [] {
      assert SavedBody([name][1..]) == "";
    } else {
      assert (items + [name])[1..] == items[1..] + [name];
      SavedBodySnoc(items[1..], name);
    }
  }

  /**
    `save_results`: with a chosen file name, the header line and one line per
    item of the list box; with the dialog cancelled (an empty name), nothing.
   */
  method SaveResults(box: ServiceList, chosen: string) returns (written: Option<string>)
    ensures chosen == "" ==> written == None
    ensures chosen != "" ==> written == Some(SavedText(box.items))
  {
    if chosen == "" {
      return None;
    }
    var text := SavedHeader + "\n";
    var n := |box.items|;
    for i := 0 to n
      invariant text == SavedHeader + "\n" + SavedBody(box.items[..i])
    {
      assert box.items[..i + 1] == box.items[..i] + [box.items[i]];
      SavedBodySnoc(box.items[..i], box.items[i]);
      text := text + "- " + box.items[i] + "\n";
    }
    assert box.items[..n] == box.items;
    written := Some(text);
  }

  /** The lines of the saved text, as `splitlines` reads them back. */
  function SavedLines(items: seq<string>): seq<string>
  {
    [SavedHeader] + seq(|items|, i requires 0 <= i < |items| => "- " + items[i])
  }

  /** Reading the saved file back line by line gives the header, then one `- name` per item, in order. */
  lemma {:induction false} SavedTextReadsBack(items: seq<string>)
    requires forall i :: 0 <= i < |items| ==> NoBreaks(items[i])
    ensures SplitLines(SavedText(items)) == SavedLines(items)
  {
    SavedBodyReadsBack(items);
    SplitLinesCons(SavedHeader, SavedBody(items));
  }

  lemma {:induction false} SavedBodyReadsBack(items: seq<string>)
    requires forall i :: 0 <= i < |items| ==> NoBreaks(items[i])
    ensures SplitLines(SavedBody(items)) == SavedLines(items)[1..]
    decreases |items|
  {
    if items != [] {
      var line := "- " + items[0];
      assert NoBreaks(line) by {
        forall k | 0 <= k < |line| ensures !IsLineBreak(line[k]) {
          if k >= 2 { assert line[k] == items[0][k - 2]; }
        }
      }
      SavedBodyReadsBack(items[1..]);
      SplitLinesCons(line, SavedBody(items[1..]));
    }
  }

  /** After a scan, the saved file holds the header and exactly one `- name` line per extra service, in sorted order. */
  lemma ScanThenSave(stdout: string, listing: seq<string>)
    requires IsExtraListing(listing, stdout, DefaultServices)
    ensures SplitLines(SavedText(listing)) == SavedLines(listing)
  {
    SplitLinesNoBreaks(stdout);
    ServiceNamesHaveNoBreaks(SplitLines(stdout));
    forall i | 0 <= i < |listing| ensures NoBreaks(listing[i]) {
      assert listing[i] in listing;
    }
    SavedTextReadsBack(listing);
  }
}
