/** upnp/igd.ts: the flattening of an Internet Gateway Device's
    description into a list of device and service entries, the choice of
    the WAN connection service among them, and the SOAPAction header value
    of a control request. Fetching the description, the XML parser and the
    SOAP exchange are left out; the parsed description is a parameter.
 */
module Igd {
  import opened Wrappers
  import opened Bytes
  import opened Text

  /** A `<service>` element as the XML parser yields it. */
  datatype Service = Service(serviceType: string, controlURL: Option<string>)

  /** A `<device>` element: `serviceList` and `deviceList` are absent (or
      empty, hence falsy) when the element has none; each holds at most one
      child element, which may itself be missing. */
  datatype Device = Device(deviceType: string, friendlyName: Option<string>,
                           serviceList: Option<ServiceList>, deviceList: Option<DeviceList>)
  datatype ServiceList = ServiceList(service: Option<Service>)
  datatype DeviceList = DeviceList(device: Option<Device>)

  /** `DeviceResult`: `{kind: 'device', ...}` or `{kind: 'service', ...}`. */
  datatype Entry =
    | DeviceEntry(deviceType: string, friendlyName: Option<string>)
    | ServiceEntry(serviceType: string, controlURL: Option<string>)

  const WAN_SERVICES: seq<string> := [
    "urn:schemas-upnp-org:service:WANIPConnection:1",
    "urn:schemas-upnp-org:service:WANIPConnection:2",
    "urn:schemas-upnp-org:service:WANPPPConnection:1"
  ]

  const SERVICE_NOT_FOUND := "WANIPConnection service not found"
  const NO_CONTROL_URL := "Service controlURL not found"

  // ---------------------------------------------------------------------
  // Flattening

  /** The entry a service list contributes; reading the fields of a missing
      `service` throws. */
  function ServicePart(sl: Option<ServiceList>): (r: Result<seq<Entry>>)
    ensures r.Err? ==> r.error == TYPE_ERROR
    ensures r.Ok? ==> |r.value| <= 1
  {
    match sl
    case None => Ok([])
    case Some(ServiceList(None)) => Err(TYPE_ERROR)
    case Some(ServiceList(Some(s))) => Ok([ServiceEntry(s.serviceType, s.controlURL)])
  }

  /** `parseDevice(device)`: the generator `#parseDevice` run to the end by
      `Array.from`. A missing device yields nothing and then throws on
      `device.serviceList`, which fails the whole call. */
  function Flatten(d: Option<Device>): (r: Result<seq<Entry>>)
    ensures r.Err? ==> r.error == TYPE_ERROR
    ensures r.Ok? ==> |r.value| > 0 && r.value[0].DeviceEntry?
    decreases d
  {
    match d
    case None => Err(TYPE_ERROR)
    case Some(dev) =>
      var head := [DeviceEntry(dev.deviceType, dev.friendlyName)];
      match ServicePart(dev.serviceList)
      case Err(e) => Err(e)
      case Ok(svc) =>
        match dev.deviceList
        case None => Ok(head + svc)
        case Some(dl) =>
          match Flatten(dl.device)
          case Err(e) => Err(e)
          case Ok(rest) => Ok(head + svc + rest)
  }

  // ---------------------------------------------------------------------
  // A reference description of the flattening

  /** The devices reached by following `deviceList.device` from `d`. */
  function Chain(d: Device): (c: seq<Device>)
    ensures |c| > 0 && c[0] == d
    decreases d
  {
    match d.deviceList
    case Some(DeviceList(Some(child))) => [d] + Chain(child)
    case _ => [d]
  }

  /** A list element whose single child is missing. */
  predicate Dangling(d: Device) {
    || (d.serviceList.Some? && d.serviceList.value.service.None?)
    || (d.deviceList.Some? && d.deviceList.value.device.None?)
  }

  function DeviceEntryOf(d: Device): Entry {
    DeviceEntry(d.deviceType, d.friendlyName)
  }

  /** The device entries of a list, in order. */
  function DeviceEntries(es: seq<Entry>): (r: seq<Entry>)
    ensures |r| <= |es|
  {
    if |es| == 0 then [] else (if es[0].DeviceEntry? then [es[0]] else []) + DeviceEntries(es[1..])
  }

  /** The service entries of a list, in order: `.filter(d => d.kind === 'service')`. */
  function ServiceEntries(es: seq<Entry>): (r: seq<Entry>)
    ensures |r| <= |es|
    ensures forall i :: 0 <= i < |r| ==> r[i].ServiceEntry?
  {
    if |es| == 0 then [] else (if es[0].ServiceEntry? then [es[0]] else []) + ServiceEntries(es[1..])
  }

  /** The services the devices of a chain declare, in chain order. */
  function DeclaredServices(c: seq<Device>): (r: seq<Entry>)
  {
    if |c| == 0 then []
    else
      var first := match c[0].serviceList
        case Some(ServiceList(Some(s))) => [ServiceEntry(s.serviceType, s.controlURL)]
        case _ => [];
      first + DeclaredServices(c[1..])
  }

  lemma {:induction false} DeviceEntriesAppend(a: seq<Entry>, b: seq<Entry>)
    ensures DeviceEntries(a + b) == DeviceEntries(a) + DeviceEntries(b)
    decreases |a|
  {
    if |a| == 0 {
      assert a + b == b;
    } else {
      assert (a + b)[0] == a[0];
      assert (a + b)[1..] == a[1..] + b;
      DeviceEntriesAppend(a[1..], b);
      ConcatAssoc(if a[0].DeviceEntry? then [a[0]] else [], DeviceEntries(a[1..]), DeviceEntries(b));
    }
  }

  lemma {:induction false} ServiceEntriesAppend(a: seq<Entry>, b: seq<Entry>)
    ensures ServiceEntries(a + b) == ServiceEntries(a) + ServiceEntries(b)
    decreases |a|
  {
    if |a| == 0 {
      assert a + b == b;
    } else {
      assert (a + b)[0] == a[0];
      assert (a + b)[1..] == a[1..] + b;
      ServiceEntriesAppend(a[1..], b);
      ConcatAssoc(if a[0].ServiceEntry? then [a[0]] else [], ServiceEntries(a[1..]), ServiceEntries(b));
    }
  }

  /** The flattening succeeds exactly when no device on the chain has a
      dangling list. */
  lemma {:induction false} FlattenOk(d: Device)
    ensures Flatten(Some(d)).Ok? ==> forall i :: 0 <= i < |Chain(d)| ==> !Dangling(Chain(d)[i])
    ensures (forall i :: 0 <= i < |Chain(d)| ==> !Dangling(Chain(d)[i])) ==> Flatten(Some(d)).Ok?
    decreases d
  {
    var c := Chain(d);
    assert ServicePart(d.serviceList).Ok? <==> !(d.serviceList.Some? && d.serviceList.value.service.None?);
    if d.deviceList.Some? && d.deviceList.value.device.Some? {
      var child := d.deviceList.value.device.value;
      assert Flatten(Some(d)).Ok? <==> ServicePart(d.serviceList).Ok? && Flatten(Some(child)).Ok?;
      FlattenOk(child);
      assert c == [d] + Chain(child);
      assert forall i :: 1 <= i < |c| ==> c[i] == Chain(child)[i - 1];
      if !Dangling(d) && Flatten(Some(child)).Ok? {
        assert forall i :: 0 <= i < |c| ==> !Dangling(c[i]);
      }
      if Dangling(d) {
        assert Dangling(c[0]);
      }
      if forall i :: 0 <= i < |c| ==> !Dangling(c[i]) {
        forall j | 0 <= j < |Chain(child)|
          ensures !Dangling(Chain(child)[j])
        {
          assert Chain(child)[j] == c[j + 1];
        }
        assert !Dangling(c[0]);
      }
    } else {
      assert c == [d];
      assert c[0] == d;
    }
  }

  /** The device entry comes first, then the service entry when the device
      declares a service, then the child's entries. */
  lemma FlattenParts(d: Device)
    requires Flatten(Some(d)).Ok?
    ensures ServicePart(d.serviceList).Ok?
    ensures d.deviceList.None? ==> Flatten(Some(d)).value == [DeviceEntryOf(d)] + ServicePart(d.serviceList).value
    ensures d.deviceList.Some? ==>
              && d.deviceList.value.device.Some?
              && Flatten(d.deviceList.value.device).Ok?
              && Flatten(Some(d)).value
                 == [DeviceEntryOf(d)] + ServicePart(d.serviceList).value + Flatten(d.deviceList.value.device).value
    ensures d.deviceList.Some? ==> Chain(d) == [d] + Chain(d.deviceList.value.device.value)
    ensures d.deviceList.None? ==> Chain(d) == [d]
  {
  }

  /** What the device's own part contributes to each projection. */
  lemma OwnPart(d: Device)
    requires ServicePart(d.serviceList).Ok?
    ensures DeviceEntries([DeviceEntryOf(d)] + ServicePart(d.serviceList).value) == [DeviceEntryOf(d)]
    ensures ServiceEntries([DeviceEntryOf(d)] + ServicePart(d.serviceList).value) == DeclaredServices([d])
  {
    var head := [DeviceEntryOf(d)];
    var svc := ServicePart(d.serviceList).value;
    assert DeviceEntries(svc) == [] by {
      if |svc| == 1 {
        assert svc[1..] == [];
      }
    }
    assert ServiceEntries(svc) == DeclaredServices([d]) by {
      if |svc| == 1 {
        assert svc[1..] == [];
      }
      assert [d][1..] == [];
    }
    assert DeviceEntries(head) == head && ServiceEntries(head) == [] by {
      assert head[1..] == [];
    }
    DeviceEntriesAppend(head, svc);
    ServiceEntriesAppend(head, svc);
  }

  function DeviceEntriesOf(c: seq<Device>): (r: seq<Entry>)
    ensures |r| == |c|
    ensures forall i :: 0 <= i < |c| ==> r[i] == DeviceEntryOf(c[i])
  {
    seq(|c|, i requires 0 <= i < |c| => DeviceEntryOf(c[i]))
  }

  /** A successful flattening lists one device entry per device of the
      chain, in chain order: a pre-order walk. */
  lemma {:induction false} FlattenDevices(d: Device)
    requires Flatten(Some(d)).Ok?
    ensures DeviceEntries(Flatten(Some(d)).value) == DeviceEntriesOf(Chain(d))
    decreases d
  {
    FlattenParts(d);
    OwnPart(d);
    var own := [DeviceEntryOf(d)] + ServicePart(d.serviceList).value;
    if d.deviceList.None? {
      assert DeviceEntriesOf([d]) == [DeviceEntryOf(d)];
    } else {
      var child := d.deviceList.value.device.value;
      FlattenDevices(child);
      DeviceEntriesAppend(own, Flatten(Some(child)).value);
      assert DeviceEntriesOf([d] + Chain(child)) == [DeviceEntryOf(d)] + DeviceEntriesOf(Chain(child));
    }
  }

  /** A successful flattening lists exactly the services the devices of the
      chain declare, in chain order. */
  lemma {:induction false} FlattenServices(d: Device)
    requires Flatten(Some(d)).Ok?
    ensures ServiceEntries(Flatten(Some(d)).value) == DeclaredServices(Chain(d))
    decreases d
  {
    FlattenParts(d);
    OwnPart(d);
    var own := [DeviceEntryOf(d)] + ServicePart(d.serviceList).value;
    if d.deviceList.Some? {
      var child := d.deviceList.value.device.value;
      FlattenServices(child);
      ServiceEntriesAppend(own, Flatten(Some(child)).value);
      var c := [d] + Chain(child);
      assert c[0] == d && c[1..] == Chain(child);
      assert DeclaredServices([d]) + DeclaredServices(Chain(child)) == DeclaredServices(c) by {
        assert [d][1..] == [];
      }
    }
  }

  // ---------------------------------------------------------------------
  // Choosing the WAN service

  predicate IsWanService(e: Entry) {
    e.ServiceEntry? && e.serviceType in WAN_SERVICES
  }

  /** `.find(d => this.services.includes(d.serviceType))`: the index of the
      first WAN entry. */
  function FirstWan(es: seq<Entry>): (r: Option<nat>)
    requires forall i :: 0 <= i < |es| ==> es[i].ServiceEntry?
    ensures r.Some? ==> r.value < |es| && es[r.value].serviceType in WAN_SERVICES
    ensures r.Some? ==> forall j :: 0 <= j < r.value ==> es[j].serviceType !in WAN_SERVICES
    ensures r.None? ==> forall j :: 0 <= j < |es| ==> es[j].serviceType !in WAN_SERVICES
  {
    if |es| == 0 then None
    else if es[0].serviceType in WAN_SERVICES then Some(0)
    else match FirstWan(es[1..])
      case None => None
      case Some(i) => Some(i + 1)
  }

  /** JavaScript truthiness of `controlURL`: present and not empty. */
  predicate Truthy(s: Option<string>) {
    s.Some? && s.value != ""
  }

  /** `getService()` on the flattened description: the first WAN
      connection service among the service entries. */
  function SelectService(es: seq<Entry>): (r: Result<Entry>)
    ensures r.Ok? ==> IsWanService(r.value) && Truthy(r.value.controlURL)
    ensures r.Err? ==> r.error in {SERVICE_NOT_FOUND, NO_CONTROL_URL}
  {
    var services := ServiceEntries(es);
    match FirstWan(services)
    case None => Err(SERVICE_NOT_FOUND)
    case Some(i) =>
      if !Truthy(services[i].controlURL) then Err(NO_CONTROL_URL) else Ok(services[i])
  }

  /** `getService()`: the description's flattening errors come first. */
  function GetService(root: Option<Device>): (r: Result<Entry>)
    ensures r.Err? ==> r.error in {TYPE_ERROR, SERVICE_NOT_FOUND, NO_CONTROL_URL}
  {
    match Flatten(root)
    case Err(e) => Err(e)
    case Ok(es) => SelectService(es)
  }

  /** The first WAN service entry of the whole list, in one pass. */
  function FirstWanService(es: seq<Entry>): (r: Option<nat>)
    ensures r.Some? ==> r.value < |es| && IsWanService(es[r.value])
    ensures r.Some? ==> forall j :: 0 <= j < r.value ==> !IsWanService(es[j])
    ensures r.None? ==> forall j :: 0 <= j < |es| ==> !IsWanService(es[j])
  {
    if |es| == 0 then None
    else if IsWanService(es[0]) then Some(0)
    else match FirstWanService(es[1..])
      case None => None
      case Some(i) => Some(i + 1)
  }

  /** Filtering the services and then finding a WAN type picks the same
      entry as looking for the first WAN service in one pass. */
  lemma {:induction false} FilterThenFind(es: seq<Entry>)
    ensures FirstWan(ServiceEntries(es)).None? <==> FirstWanService(es).None?
    ensures FirstWan(ServiceEntries(es)).Some? ==>
              ServiceEntries(es)[FirstWan(ServiceEntries(es)).value] == es[FirstWanService(es).value]
    decreases |es|
  {
    if |es| > 0 {
      FilterThenFind(es[1..]);
      var s := ServiceEntries(es);
      if es[0].ServiceEntry? {
        assert s == [es[0]] + ServiceEntries(es[1..]);
        assert s[1..] == ServiceEntries(es[1..]);
      } else {
        assert s == ServiceEntries(es[1..]);
      }
    }
  }

  /** What `getService` answers, stated on the whole entry list: not found
      when no entry is a WAN service; otherwise the first one, unless its
      control URL is missing or empty. */
  lemma SelectServiceSpec(es: seq<Entry>)
    ensures FirstWanService(es).None? ==> SelectService(es) == Err(SERVICE_NOT_FOUND)
    ensures FirstWanService(es).Some? ==>
              var e := es[FirstWanService(es).value];
              SelectService(es) == if Truthy(e.controlURL) then Ok(e) else Err(NO_CONTROL_URL)
  {
    FilterThenFind(es);
  }

  // ---------------------------------------------------------------------
  // The SOAPAction header

  const BS: char := 8 as char
  const FF: char := 12 as char

  /** `JSON.stringify` of one character inside a string literal. */
  function JsonChar(c: char): (r: string)
    ensures |r| > 0
  {
    if c == '"' then "\\\""
    else if c == '\\' then "\\\\"
    else if c == BS then "\\b"
    else if c == FF then "\\f"
    else if c == '\n' then "\\n"
    else if c == '\r' then "\\r"
    else if c == '\t' then "\\t"
    else if c < ' ' then "\\u00" + Hex2(c as int)
    else [c]
  }

  function JsonEscape(s: string): string {
    if |s| == 0 then "" else JsonChar(s[0]) + JsonEscape(s[1..])
  }

  /** `JSON.stringify(s)` for a string. */
  function JsonString(s: string): (r: string)
    ensures |r| >= 2 && r[0] == '"' && r[|r| - 1] == '"'
  {
    "\"" + JsonEscape(s) + "\""
  }

  /** The SOAPAction header value: `JSON.stringify(\`${serviceType}#${action}\`)`. */
  function SoapAction(serviceType: string, action: string): string {
    JsonString(serviceType + "#" + action)
  }

  /** Reading the body of a JSON string literal back, for the escapes
      `JSON.stringify` writes. */
  function JsonUnescape(t: string): (r: Option<string>)
    decreases |t|
  {
    if |t| == 0 then Some("")
    else if t[0] == '"' || t[0] < ' ' then None
    else if t[0] != '\\' then
      match JsonUnescape(t[1..])
      case None => None
      case Some(rest) => Some([t[0]] + rest)
    else if |t| < 2 then None
    else
      var e := t[1];
      if e == 'u' then
        if |t| < 6 || t[2] != '0' || t[3] != '0' || !IsHexDigit(t[4]) || !IsHexDigit(t[5]) then None
        else
          match JsonUnescape(t[6..])
          case None => None
          case Some(rest) => Some([(HexDigitValue(t[4]) * 16 + HexDigitValue(t[5])) as char] + rest)
      else
        var c := if e == '"' then Some('"') else if e == '\\' then Some('\\') else if e == 'b' then Some(BS)
                 else if e == 'f' then Some(FF) else if e == 'n' then Some('\n') else if e == 'r' then Some('\r')
                 else if e == 't' then Some('\t') else None;
        match c
        case None => None
        case Some(ch) =>
          match JsonUnescape(t[2..])
          case None => None
          case Some(rest) => Some([ch] + rest)
  }

  /** One escaped character, then anything, unescapes to the character
      followed by what the rest unescapes to. */
  lemma JsonCharUnescape(c: char, t: string)
    ensures JsonUnescape(JsonChar(c) + t)
         == match JsonUnescape(t) case None => None case Some(rest) => Some([c] + rest)
  {
    var u := JsonChar(c) + t;
    if c < ' ' && c != BS && c != FF && c != '\n' && c != '\r' && c != '\t' {
      var h := Hex2(c as int);
      assert u == ['\\', 'u', '0', '0', h[0], h[1]] + t;
      assert u[6..] == t;
      Hex2RoundTrip(c as int);
      assert (HexDigitValue(h[0]) * 16 + HexDigitValue(h[1])) as char == c;
    } else if c == '"' || c == '\\' || c == BS || c == FF || c == '\n' || c == '\r' || c == '\t' {
      assert u[2..] == t;
    } else {
      assert u[1..] == t;
    }
  }

  /** Escaping is undone by unescaping. */
  lemma {:induction false} JsonEscapeRoundTrip(s: string)
    ensures JsonUnescape(JsonEscape(s)) == Some(s)
    decreases |s|
  {
    if |s| > 0 {
      JsonEscapeRoundTrip(s[1..]);
      JsonCharUnescape(s[0], JsonEscape(s[1..]));
      assert [s[0]] + s[1..] == s;
    }
  }

  /** A receiver that decodes the SOAPAction header as a JSON string gets
      `serviceType#action` back, whatever characters they hold. */
  lemma SoapActionRoundTrip(serviceType: string, action: string)
    ensures var v := SoapAction(serviceType, action);
            JsonUnescape(v[1..|v| - 1]) == Some(serviceType + "#" + action)
  {
    var s := serviceType + "#" + action;
    var v := SoapAction(serviceType, action);
    assert v[1..|v| - 1] == JsonEscape(s);
    JsonEscapeRoundTrip(s);
  }

  /** Characters that need no escape are written as they are. */
  lemma {:induction false} PlainEscape(s: string)
    requires forall i :: 0 <= i < |s| ==> s[i] >= ' ' && s[i] != '"' && s[i] != '\\'
    ensures JsonEscape(s) == s
    decreases |s|
  {
    if |s| > 0 {
      PlainEscape(s[1..]);
      assert [s[0]] + s[1..] == s;
    }
  }

  /** For ordinary service types and actions the header is the quoted
      `serviceType#action`. */
  lemma SoapActionPlain(serviceType: string, action: string)
    requires forall i :: 0 <= i < |serviceType| ==> serviceType[i] >= ' ' && serviceType[i] != '"' && serviceType[i] != '\\'
    requires forall i :: 0 <= i < |action| ==> action[i] >= ' ' && action[i] != '"' && action[i] != '\\'
    ensures SoapAction(serviceType, action) == "\"" + serviceType + "#" + action + "\""
  {
    var s := serviceType + "#" + action;
    assert forall i :: 0 <= i < |s| ==> s[i] >= ' ' && s[i] != '"' && s[i] != '\\' by {
      forall i | 0 <= i < |s|
        ensures s[i] >= ' ' && s[i] != '"' && s[i] != '\\'
      {
        if i < |serviceType| {
          assert s[i] == serviceType[i];
        } else if i > |serviceType| {
          assert s[i] == action[i - |serviceType| - 1];
        }
      }
    }
    PlainEscape(s);
  }
}
