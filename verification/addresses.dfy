/** Upper-case addresses, and the BlueZ object paths they travel in. */
module Addresses {
  /** Upper case of an ASCII letter; any other character is left alone. */
  function UpperChar(c: char): char {
    if 'a' <= c <= 'z' then (c as int - 32) as char else c
  }

  function Upper(s: string): (r: string)
    ensures |r| == |s| && forall i | 0 <= i < |s| :: r[i] == UpperChar(s[i])
  {
    seq(|s|, i requires 0 <= i < |s| => UpperChar(s[i]))
  }

  /** strings.ReplaceAll for single characters. */
  function Replace(s: string, from: char, to: char): (r: string)
    ensures |r| == |s| && forall i | 0 <= i < |s| :: r[i] == if s[i] == from then to else s[i]
  {
    seq(|s|, i requires 0 <= i < |s| => if s[i] == from then to else s[i])
  }

  const PREFIX := "dev_"

  /** devicePath */
  function DevicePath(adapter: string, mac: string): string {
    adapter + "/" + (PREFIX + Replace(Upper(mac), ':', '_'))
  }

  /** The first component of a path, up to the first slash. */
  function Component(path: string): (c: string)
    ensures c <= path && '/' !in c
    ensures |c| < |path| ==> path[|c|] == '/'
  {
    if path == "" || path[0] == '/' then "" else [path[0]] + Component(path[1..])
  }

  /** strings.Split(path, "/") */
  function Split(path: string): seq<string>
    decreases |path|
  {
    var c := Component(path);
    if |c| == |path| then [c] else [c] + Split(path[|c| + 1..])
  }

  function FirstDevice(parts: seq<string>): string {
    if parts == [] then ""
    else if PREFIX <= parts[0] then Replace(parts[0][|PREFIX|..], '_', ':')
    else FirstDevice(parts[1..])
  }

  /** extractMAC as a function: the address in the first component that starts with the prefix, or nothing. */
  function AddressIn(path: string): string {
    FirstDevice(Split(path))
  }

  /** extractMAC: the loop over the components. */
  method ExtractMAC(path: string) returns (mac: string)
    ensures mac == AddressIn(path)
  {
    var parts := Split(path);
    for i := 0 to |parts|
      invariant FirstDevice(parts) == FirstDevice(parts[i..])
    {
      if PREFIX <= parts[i] {
        mac := parts[i][|PREFIX|..];
        return Replace(mac, '_', ':');
      }
    }
    return "";
  }

  lemma SplitStep(path: string)
    ensures var c := Component(path);
            if |c| == |path| then path == c && Split(path) == [c]
            else path == c + "/" + path[|c| + 1..] && Split(path) == [c] + Split(path[|c| + 1..])
  {
  }

  lemma SplitComponent(c: string, rest: string)
    requires '/' !in c
    ensures Split(c + "/" + rest) == [c] + Split(rest)
  {
    hide Split;
    var path := c + "/" + rest;
    assert path == c + ("/" + rest);
    ComponentOf(c, "/" + rest);
    assert path[|c| + 1..] == rest;
    SplitStep(path);
  }

  lemma {:induction false} ComponentOf(c: string, rest: string)
    requires '/' !in c && (rest == "" || rest[0] == '/')
    ensures Component(c + rest) == c
  {
    if c == "" {
      assert c + rest == rest;
    } else {
      assert (c + rest)[1..] == c[1..] + rest;
      assert '/' !in c[1..];
      assert c[0] in c;
      ComponentOf(c[1..], rest);
    }
  }

  lemma {:induction false} SplitConcat(a: string, b: string)
    ensures Split(a + "/" + b) == Split(a) + Split(b)
    decreases |a|
  {
    hide Split;
    var c := Component(a);
    SplitStep(a);
    if |c| == |a| {
      SplitComponent(c, b);
    } else {
      var rest := a[|c| + 1..];
      SplitConcat(rest, b);
      SplitComponent(c, rest + "/" + b);
      assert c + "/" + rest + "/" + b == c + "/" + (rest + "/" + b);
      assert [c] + Split(rest) + Split(b) == [c] + (Split(rest) + Split(b));
    }
  }

  /** None of these components starts with the prefix. */
  ghost predicate NoDevice(parts: seq<string>) {
    forall i | 0 <= i < |parts| :: !(PREFIX <= parts[i])
  }

  lemma {:induction false} FirstDeviceConcat(a: seq<string>, b: seq<string>)
    requires NoDevice(a)
    ensures FirstDevice(a + b) == FirstDevice(b)
  {
    if a == [] {
      assert a + b == b;
    } else {
      assert (a + b)[0] == a[0] && (a + b)[1..] == a[1..] + b;
      FirstDeviceConcat(a[1..], b);
    }
  }

  lemma NoSlash(s: string)
    ensures Component(s) == s <==> '/' !in s
  {
    if '/' !in s {
      assert s + "" == s;
      ComponentOf(s, "");
    }
  }

  /** The device component leads to what stands between the prefix and the first slash. */
  lemma AddressInPath(adapter: string, s: string)
    requires NoDevice(Split(adapter))
    ensures AddressIn(adapter + "/" + (PREFIX + s)) == Replace(Component(s), '_', ':')
  {
    var device := PREFIX + s;
    SplitConcat(adapter, device);
    FirstDeviceConcat(Split(adapter), Split(device));
    ComponentOfPrefixed(s);
    assert Split(device)[0] == Component(device);
    assert (PREFIX + Component(s))[|PREFIX|..] == Component(s);
  }

  lemma ComponentOfPrefixed(s: string)
    ensures Component(PREFIX + s) == PREFIX + Component(s)
  {
    var c := Component(s);
    var rest := s[|c|..];
    assert s == c + rest;
    assert PREFIX + s == PREFIX + c + rest;
    ComponentOf(PREFIX + c, rest);
  }

  /** Replacing characters other than slashes does not move the first slash. */
  lemma {:induction false} ComponentReplaced(s: string, from: char, to: char)
    requires from != '/' && to != '/'
    ensures Component(Replace(s, from, to)) == Replace(Component(s), from, to)
  {
    if s != "" && s[0] != '/' {
      ComponentReplaced(s[1..], from, to);
      assert Replace(s, from, to)[1..] == Replace(s[1..], from, to);
      assert Component(s)[1..] == Component(s[1..]);
    }
  }

  /** What is heard on the path of an address: its upper-case form up to the first slash, underscores turned into colons. */
  lemma HeardAs(adapter: string, mac: string)
    requires NoDevice(Split(adapter))
    ensures AddressIn(DevicePath(adapter, mac)) == Replace(Component(Upper(mac)), '_', ':')
  {
    var upper, s := Upper(mac), Replace(Upper(mac), ':', '_');
    AddressInPath(adapter, s);
    ComponentReplaced(upper, ':', '_');
    var c := Component(upper);
    assert Replace(Replace(c, ':', '_'), '_', ':') == Replace(c, '_', ':');
  }

  /**
   The path of an address leads back to it, in upper case, exactly when the address has no underscore and no slash; the
   adapter path must not itself have a device component.
   */
  lemma PathRoundTrip(adapter: string, mac: string)
    requires NoDevice(Split(adapter))
    ensures AddressIn(DevicePath(adapter, mac)) == Upper(mac) <==> '_' !in mac && '/' !in mac
  {
    var upper := Upper(mac);
    HeardAs(adapter, mac);
    NoSlash(upper);
    assert forall i | 0 <= i < |mac| :: (upper[i] == '/' <==> mac[i] == '/') && (upper[i] == '_' <==> mac[i] == '_');
    if '/' in mac {
      assert '/' in upper;
      assert |Component(upper)| < |upper|;
    } else {
      assert '/' !in upper;
      assert forall i | 0 <= i < |mac| :: Replace(upper, '_', ':')[i] == upper[i] <==> mac[i] != '_';
      if '_' !in mac {
        assert Replace(upper, '_', ':') == upper;
      }
    }
  }

  lemma UpperText()
    ensures Upper("c8:8A:AB:3D:7B:E8") == "C8:8A:AB:3D:7B:E8"
  {
  }

  lemma ReplacedText()
    ensures Replace("C8:8A:AB:3D:7B:E8", ':', '_') == "C8_8A_AB_3D_7B_E8"
  {
  }

  /** The paths as BlueZ writes them: "dev_" and the upper-case address with underscores. */
  lemma PathText(adapter: string)
    ensures DevicePath(adapter, "c8:8A:AB:3D:7B:E8") == adapter + "/dev_C8_8A_AB_3D_7B_E8"
    ensures NoDevice(Split(adapter)) ==> AddressIn(adapter + "/dev_C8_8A_AB_3D_7B_E8") == "C8:8A:AB:3D:7B:E8"
  {
    hide Split, NoDevice, AddressIn, Component, Upper, Replace;
    UpperText();
    ReplacedText();
    PathJoined(adapter, "C8_8A_AB_3D_7B_E8");
    if NoDevice(Split(adapter)) {
      PathRoundTrip(adapter, "c8:8A:AB:3D:7B:E8");
    }
  }

  lemma PathJoined(adapter: string, s: string)
    ensures adapter + "/" + (PREFIX + s) == adapter + ("/dev_" + s)
    ensures "/dev_" + "C8_8A_AB_3D_7B_E8" == "/dev_C8_8A_AB_3D_7B_E8"
  {
    assert "/" + PREFIX == "/dev_";
    assert adapter + "/" + (PREFIX + s) == adapter + ("/" + PREFIX + s);
  }

  /** What the scanner subscribes to: everything BlueZ says, or what concerns one object path. */
  datatype Rule = Everything | PropertiesChanged(path: string) | InterfacesAdded(path: string)

  /** matchRules: in named mode two rules for each configured key and nothing else. */
  method MatchRules(adapter: string, named: bool, devices: set<string>) returns (rules: seq<Rule>)
    ensures !named || devices == {} ==> rules == [Everything]
    ensures named && devices != {} ==>
              && |rules| == 2 * |devices|
              && (forall rule | rule in rules ::
                    rule != Everything && exists mac :: mac in devices && rule.path == DevicePath(adapter, mac))
              && forall mac | mac in devices ::
                   PropertiesChanged(DevicePath(adapter, mac)) in rules && InterfacesAdded(DevicePath(adapter, mac)) in rules
  {
    if !named || |devices| == 0 {
      return [Everything];
    }
    rules := [];
    var left := devices;
    while left != {}
      invariant left <= devices && |rules| + 2 * |left| == 2 * |devices|
      invariant forall rule | rule in rules ::
                  rule != Everything && exists mac :: mac in devices && rule.path == DevicePath(adapter, mac)
      invariant forall mac | mac in devices - left ::
                  PropertiesChanged(DevicePath(adapter, mac)) in rules && InterfacesAdded(DevicePath(adapter, mac)) in rules
      decreases left
    {
      var mac :| mac in left;
      var path := DevicePath(adapter, mac);
      rules := rules + [PropertiesChanged(path), InterfacesAdded(path)];
      left := left - {mac};
    }
  }

  /**
   In named mode the scanner subscribes the path of every configured key. What it hears there passes the filter of the
   callback exactly when the address heard is itself configured: the upper-case form of the key with underscores turned
   into colons, up to the first slash. A key that is not written like that is subscribed and then dropped.
   */
  lemma SubscribedPassesFilter(adapter: string, devices: set<string>, mac: string)
    requires NoDevice(Split(adapter)) && mac in devices
    ensures Upper(AddressIn(DevicePath(adapter, mac))) in devices <==> Replace(Component(Upper(mac)), '_', ':') in devices
    ensures '/' !in mac ==>
              (Upper(AddressIn(DevicePath(adapter, mac))) in devices <==> Replace(Upper(mac), '_', ':') in devices)
    ensures Upper(mac) == mac && '_' !in mac && '/' !in mac ==> Upper(AddressIn(DevicePath(adapter, mac))) in devices
  {
    var upper := Upper(mac);
    var heard := Replace(Component(upper), '_', ':');
    HeardAs(adapter, mac);
    NoSlash(upper);
    assert Upper(heard) == heard;
    assert forall i | 0 <= i < |mac| :: upper[i] == '/' <==> mac[i] == '/';
    if '_' !in mac && upper == mac {
      assert Replace(mac, '_', ':') == mac;
    }
  }

  /** A configuration whose only device is subscribed but never heard: its key is in lower case. */
  lemma LowerCaseKeyDropped(adapter: string)
    requires NoDevice(Split(adapter))
    ensures Upper(AddressIn(DevicePath(adapter, "f0:31:80:ed:76:d2"))) !in {"f0:31:80:ed:76:d2"}
  {
    hide Component, Split, NoDevice, AddressIn, DevicePath;
    var mac := "f0:31:80:ed:76:d2";
    SubscribedPassesFilter(adapter, {mac}, mac);
    assert Replace(Upper(mac), '_', ':')[0] == 'F' && mac[0] == 'f';
  }

  /** Another one, in upper case: its key is written with underscores. */
  lemma UnderscoreKeyDropped(adapter: string)
    requires NoDevice(Split(adapter))
    ensures var mac := "C8_8A_AB_3D_7B_E8";
            Upper(mac) == mac && Upper(AddressIn(DevicePath(adapter, mac))) !in {mac}
  {
    hide Component, Split, NoDevice, AddressIn, DevicePath;
    var mac := "C8_8A_AB_3D_7B_E8";
    SubscribedPassesFilter(adapter, {mac}, mac);
    assert Replace(Upper(mac), '_', ':')[2] == ':' && mac[2] == '_';
  }
}
