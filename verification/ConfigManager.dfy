/** The configuration file: printed by save, read back by load. */
module ConfigManager {
  import opened Json
  import opened JsonParser
  import opened JsonText
  import opened Decimal
  import opened JsonRender
  import opened Printf
  import opened Sequences

  type Int32 = x: int | -0x8000_0000 <= x < 0x8000_0000
  type UInt16 = x: int | 0 <= x < 0x1_0000

  datatype CameraConf = CameraConf(device: string, width: Int32, height: Int32, fps: Int32)
  datatype NetworkConf = NetworkConf(bind: string, port: UInt16)
  datatype SerialConf = SerialConf(device: string, baud: Int32)
  datatype Config = Config(camera: CameraConf, network: NetworkConf, serial: SerialConf)

  /** The casts from long long. */
  function ToInt32(v: int): Int32 {
    var w := v % 0x1_0000_0000;
    if w < 0x8000_0000 then w else w - 0x1_0000_0000
  }

  function ToUInt16(v: int): UInt16 {
    v % 0x1_0000
  }

  // ----- load -----

  /** A file that could be read, or not. */
  datatype File = Content(text: string) | Unreadable

  function LoadCamera(cam: JsonNode, c: CameraConf, trunc: string -> int): CameraConf {
    if !cam.Object? then c
    else
      CameraConf(
        cam.At("device").StringOr(c.device),
        ToInt32(cam.At("width").IntOr(c.width, trunc)),
        ToInt32(cam.At("height").IntOr(c.height, trunc)),
        ToInt32(cam.At("fps").IntOr(c.fps, trunc)))
  }

  function LoadNetwork(net: JsonNode, c: NetworkConf, trunc: string -> int): NetworkConf {
    if !net.Object? then c
    else NetworkConf(net.At("bind").StringOr(c.bind), ToUInt16(net.At("port").IntOr(c.port, trunc)))
  }

  function LoadSerial(ser: JsonNode, c: SerialConf, trunc: string -> int): SerialConf {
    if !ser.Object? then c
    else SerialConf(ser.At("device").StringOr(c.device), ToInt32(ser.At("baud").IntOr(c.baud, trunc)))
  }

  /** The configuration after a load, and whether it succeeded. */
  function Loaded(file: File, c: Config, trunc: string -> int): (Config, bool) {
    match file
    case Unreadable => (c, false)
    case Content(text) =>
      var (root, err) := Parse(text);
      if err != "" || root.Null? then (c, false)
      else
        (Config(LoadCamera(root.At("camera"), c.camera, trunc),
                LoadNetwork(root.At("network"), c.network, trunc),
                LoadSerial(root.At("serial"), c.serial, trunc)), true)
  }

  // ----- load, field by field -----

  /** The member `key` of the object that is the member `section` of the root is v. */
  predicate Holds(root: JsonNode, section: string, key: string, v: JsonNode) {
    && root.Object? && section in root.members && root.members[section].Object?
    && key in root.members[section].members && root.members[section].members[key] == v
  }

  /** Looking the key up twice finds what the section holds, or the null node. */
  lemma LookedUp(root: JsonNode, section: string, key: string)
    ensures var s := root.At(section);
            if s.Object? && key in s.members then forall v :: Holds(root, section, key, v) <==> v == s.At(key)
            else (forall v :: !Holds(root, section, key, v)) && (s.Object? ==> s.At(key) == Null)
  {
  }

  lemma CastKeeps(v: int)
    ensures (ToInt32(v) - v) % 4294967296 == 0 && (-0x8000_0000 <= v < 0x8000_0000 ==> ToInt32(v) == v)
    ensures (ToUInt16(v) - v) % 65536 == 0 && (0 <= v < 65536 ==> ToUInt16(v) == v)
  {
    var q, w := v / 4294967296, v % 4294967296;
    assert v == 4294967296 * q + w;
    WholeTimes(-q);
    WholeTimes(-q - 1);
    assert ToInt32(v) - v == 4294967296 * -q || ToInt32(v) - v == 4294967296 * (-q - 1);
    WholeTimes(-(v / 65536));
    assert ToUInt16(v) - v == 65536 * -(v / 65536);
  }

  lemma WholeTimes(k: int)
    ensures (4294967296 * k) % 4294967296 == 0 && (65536 * k) % 65536 == 0
  {
  }

  lemma CastsKeep()
    ensures forall v: int :: (ToInt32(v) - v) % 4294967296 == 0 && (-0x8000_0000 <= v < 0x8000_0000 ==> ToInt32(v) == v)
    ensures forall v: int :: (ToUInt16(v) - v) % 65536 == 0 && (0 <= v < 65536 ==> ToUInt16(v) == v)
  {
    forall v: int {
      CastKeeps(v);
    }
  }

  /** A load fails exactly when the file cannot be read, its text has an error or is null, and then it changes nothing. */
  lemma LoadFailsExact(file: File, c: Config, trunc: string -> int)
    ensures Loaded(file, c, trunc).1 <==> file.Content? && Parse(file.text).1 == "" && Parse(file.text).0 != Null
    ensures !Loaded(file, c, trunc).1 ==> Loaded(file, c, trunc).0 == c
  {
    hide Parse;
  }

  /** A string or number present is taken, numbers modulo the width of the field; everything else keeps the old value. */
  lemma CameraByFields(text: string, c: Config, trunc: string -> int)
    requires Loaded(Content(text), c, trunc).1
    ensures var root := Parse(text).0; var r := Loaded(Content(text), c, trunc).0.camera;
            && (forall s | Holds(root, "camera", "device", String(s)) :: r.device == s)
            && ((forall s :: !Holds(root, "camera", "device", String(s))) ==> r.device == c.camera.device)
            && (forall i | Holds(root, "camera", "width", Int(i)) :: (r.width - i) % 4294967296 == 0)
            && (forall l | Holds(root, "camera", "width", Double(l)) :: (r.width - trunc(l)) % 4294967296 == 0)
            && ((forall v | Holds(root, "camera", "width", v) :: !v.Int? && !v.Double?) ==> r.width == c.camera.width)
            && (forall i | Holds(root, "camera", "height", Int(i)) :: (r.height - i) % 4294967296 == 0)
            && (forall l | Holds(root, "camera", "height", Double(l)) :: (r.height - trunc(l)) % 4294967296 == 0)
            && ((forall v | Holds(root, "camera", "height", v) :: !v.Int? && !v.Double?) ==> r.height == c.camera.height)
            && (forall i | Holds(root, "camera", "fps", Int(i)) :: (r.fps - i) % 4294967296 == 0)
            && (forall l | Holds(root, "camera", "fps", Double(l)) :: (r.fps - trunc(l)) % 4294967296 == 0)
            && ((forall v | Holds(root, "camera", "fps", v) :: !v.Int? && !v.Double?) ==> r.fps == c.camera.fps)
  {
    hide Parse, ToInt32, Holds, JsonNode.At;
    var root := Parse(text).0;
    CastsKeep();
    LookedUp(root, "camera", "device");
    LookedUp(root, "camera", "width");
    LookedUp(root, "camera", "height");
    LookedUp(root, "camera", "fps");
  }

  /** The port is taken modulo 65536. */
  lemma NetworkByFields(text: string, c: Config, trunc: string -> int)
    requires Loaded(Content(text), c, trunc).1
    ensures var root := Parse(text).0; var r := Loaded(Content(text), c, trunc).0.network;
            && (forall s | Holds(root, "network", "bind", String(s)) :: r.bind == s)
            && ((forall s :: !Holds(root, "network", "bind", String(s))) ==> r.bind == c.network.bind)
            && (forall i | Holds(root, "network", "port", Int(i)) :: (r.port - i) % 65536 == 0)
            && (forall l | Holds(root, "network", "port", Double(l)) :: (r.port - trunc(l)) % 65536 == 0)
            && ((forall v | Holds(root, "network", "port", v) :: !v.Int? && !v.Double?) ==> r.port == c.network.port)
  {
    hide Parse, ToInt32, ToUInt16, Holds, JsonNode.At;
    CastsKeep();
    LookedUp(Parse(text).0, "network", "bind");
    LookedUp(Parse(text).0, "network", "port");
  }

  /** The serial section in the same way. */
  lemma SerialByFields(text: string, c: Config, trunc: string -> int)
    requires Loaded(Content(text), c, trunc).1
    ensures var root := Parse(text).0; var r := Loaded(Content(text), c, trunc).0.serial;
            && (forall s | Holds(root, "serial", "device", String(s)) :: r.device == s)
            && ((forall s :: !Holds(root, "serial", "device", String(s))) ==> r.device == c.serial.device)
            && (forall i | Holds(root, "serial", "baud", Int(i)) :: (r.baud - i) % 4294967296 == 0)
            && (forall l | Holds(root, "serial", "baud", Double(l)) :: (r.baud - trunc(l)) % 4294967296 == 0)
            && ((forall v | Holds(root, "serial", "baud", v) :: !v.Int? && !v.Double?) ==> r.baud == c.serial.baud)
  {
    hide Parse, ToInt32, ToUInt16, Holds, JsonNode.At;
    CastsKeep();
    LookedUp(Parse(text).0, "serial", "device");
    LookedUp(Parse(text).0, "serial", "baud");
  }

  // ----- save -----

  /** The start of a section: two blanks, the quoted name, colon, brace, new line. */
  function Head(name: string): string {
    "  \"" + name + "\": {\n"
  }

  /** The start of a field: four blanks, the quoted name, colon, blank. */
  function Label(name: string): string {
    "    \"" + name + "\": "
  }

  function StringArg(s: string): string {
    "\"" + CStr(s) + "\""
  }

  function CameraBlock(c: CameraConf): string {
    Head("camera")
    + Label("device") + StringArg(c.device) + ",\n"
    + Label("width") + FormatInt(c.width) + ",\n"
    + Label("height") + FormatInt(c.height) + ",\n"
    + Label("fps") + FormatInt(c.fps) + "\n  }"
  }

  function NetworkBlock(c: NetworkConf): string {
    Head("network")
    + Label("bind") + StringArg(c.bind) + ",\n"
    + Label("port") + FormatInt(c.port) + "\n  }"
  }

  function SerialBlock(c: SerialConf): string {
    Head("serial")
    + Label("device") + StringArg(c.device) + ",\n"
    + Label("baud") + FormatInt(c.baud) + "\n  }"
  }

  /** What fprintf writes. */
  function Saved(c: Config): string {
    "{\n" + CameraBlock(c.camera) + ",\n" + NetworkBlock(c.network) + ",\n" + SerialBlock(c.serial) + "\n}\n"
  }

  class ConfigManager {
    var camera: CameraConf
    var network: NetworkConf
    var serial: SerialConf

    function State(): Config
      reads this
    {
      Config(camera, network, serial)
    }

    constructor ()
      ensures State() == Config(CameraConf("/dev/video0", 1280, 720, 30), NetworkConf("0.0.0.0", 8080),
                                SerialConf("/dev/ttyS1", 115200))
    {
      camera := CameraConf("/dev/video0", 1280, 720, 30);
      network := NetworkConf("0.0.0.0", 8080);
      serial := SerialConf("/dev/ttyS1", 115200);
    }

    method Load(file: File, trunc: string -> int) returns (ok: bool)
      modifies this
      ensures (State(), ok) == Loaded(file, old(State()), trunc)
      ensures ok <==> file.Content? && Parse(file.text).1 == "" && Parse(file.text).0 != Null
      ensures !ok ==> State() == old(State())
    {
      if file.Unreadable? {
        return false;
      }
      var root, err := ParseText(file.text);
      if err != "" || root.Null? {
        return false;
      }
      var cam := root.At("camera");
      if cam.Object? {
        camera := camera.(device := cam.At("device").StringOr(camera.device));
        camera := camera.(width := ToInt32(cam.At("width").IntOr(camera.width, trunc)));
        camera := camera.(height := ToInt32(cam.At("height").IntOr(camera.height, trunc)));
        camera := camera.(fps := ToInt32(cam.At("fps").IntOr(camera.fps, trunc)));
      }
      var net := root.At("network");
      if net.Object? {
        network := network.(bind := net.At("bind").StringOr(network.bind));
        network := network.(port := ToUInt16(net.At("port").IntOr(network.port, trunc)));
      }
      var ser := root.At("serial");
      if ser.Object? {
        serial := serial.(device := ser.At("device").StringOr(serial.device));
        serial := serial.(baud := ToInt32(ser.At("baud").IntOr(serial.baud, trunc)));
      }
      return true;
    }

    /** `canOpen` is whether fopen succeeds; `text` is the file's new content. */
    method Save(canOpen: bool) returns (ok: bool, text: string)
      ensures ok == canOpen
      ensures ok ==> text == Saved(State())
      ensures ok && CleanConfig(State()) ==>
                forall prior, trunc :: Loaded(Content(text), prior, trunc) == (State(), true)
    {
      hide Saved, Formatted, Printf.Fits, Loaded, CleanConfig, State;
      if !canOpen {
        return false, "";
      }

      FormatIsSaved(State());
      text := Fprintf(FORMAT, Arguments(State()));
      if CleanConfig(State()) {
        forall prior, trunc: string -> int
          ensures Loaded(Content(Saved(State())), prior, trunc) == (State(), true)
        {
          SaveLoadRoundTrip(State(), prior, trunc);
        }
      }
      return true, text;
    }
  }

  // ----- the format of the file -----

  const CAMERA_FORMAT: string :=
    "  \"camera\": {\n"
    + "    \"device\": \"%s\",\n"
    + "    \"width\": %d,\n"
    + "    \"height\": %d,\n"
    + "    \"fps\": %d\n"

  const NETWORK_FORMAT: string :=
    "  \"network\": {\n"
    + "    \"bind\": \"%s\",\n"
    + "    \"port\": %u\n"

  const SERIAL_FORMAT: string :=
    "  \"serial\": {\n"
    + "    \"device\": \"%s\",\n"
    + "    \"baud\": %d\n"

  /** The format given to fprintf. */
  const FORMAT: string :=
    "{\n" + CAMERA_FORMAT + "  },\n" + NETWORK_FORMAT + "  },\n" + SERIAL_FORMAT + "  }\n}\n"

  function CameraArguments(c: CameraConf): seq<Arg> {
    [Str(c.device)] + [Num(c.width)] + [Num(c.height)] + [Num(c.fps)]
  }

  function NetworkArguments(c: NetworkConf): seq<Arg> {
    [Str(c.bind)] + [Num(c.port)]
  }

  function SerialArguments(c: SerialConf): seq<Arg> {
    [Str(c.device)] + [Num(c.baud)]
  }

  function Arguments(c: Config): seq<Arg> {
    CameraArguments(c.camera) + NetworkArguments(c.network) + SerialArguments(c.serial)
  }

  /** A piece of format prints as `out`. */
  ghost predicate Prints(fmt: string, args: seq<Arg>, out: string) {
    Printf.Fits(fmt, args) && Formatted(fmt, args) == out
  }

  lemma PrintsNext(f: string, a: seq<Arg>, out: string, g: string, b: seq<Arg>, more: string)
    requires Prints(f, a, out) && Prints(g, b, more)
    ensures Prints(f + g, a + b, out + more)
  {
    hide Printf.Fits, Formatted;
    Together(f, a, g, b);
  }

  lemma PrintsFixed(l: string)
    requires '%' !in l
    ensures Prints(l, [], l)
  {
    Literally(l);
  }

  lemma PrintsString(name: string, s: string)
    requires '%' !in name
    ensures Prints(Label(name) + "\"%s\",\n", [Str(s)], Label(name) + StringArg(s) + ",\n")
  {
    hide CStr, Formatted, Printf.Fits;
    Conversion(Label(name) + "\"", 's', "\",\n", Str(s));
    assert Label(name) + "\"" + ['%', 's'] + "\",\n" == Label(name) + "\"%s\",\n";
    assert Label(name) + "\"" + CStr(s) + "\",\n" == Label(name) + StringArg(s) + ",\n";
  }

  lemma PrintsNumber(name: string, c: char, r: string, i: int)
    requires '%' !in name && '%' !in r && (c == 'd' || c == 'u')
    ensures Prints(Label(name) + ['%', c] + r, [Num(i)], Label(name) + FormatInt(i) + r)
  {
    hide FormatInt, Formatted, Printf.Fits;
    Conversion(Label(name), c, r, Num(i));
  }

  lemma Flat(h: string, a: string, b: string, c: string)
    ensures h + (a + b + c) == h + a + b + c
  {
  }

  /** All of a section but the closing brace. */
  lemma CameraPrints(c: CameraConf) returns (body: string)
    ensures Prints(CAMERA_FORMAT, CameraArguments(c), body + "\n") && CameraBlock(c) == body + "\n  }"
  {
    body := Head("camera") + Label("device") + StringArg(c.device) + ",\n" + Label("width") + FormatInt(c.width) + ",\n"
      + Label("height") + FormatInt(c.height) + ",\n" + Label("fps") + FormatInt(c.fps);
    CameraFormatIs();
    hide Prints, FormatInt, StringArg, Head, Label;
    HeadPlain();
    var h := Head("camera");
    PrintsFixed(h);
    PrintsString("device", c.device);
    PrintsNumber("width", 'd', ",\n", c.width);
    PrintsNumber("height", 'd', ",\n", c.height);
    PrintsNumber("fps", 'd', "\n", c.fps);
    var l1, l2 := Label("device") + "\"%s\",\n", Label("width") + ['%', 'd'] + ",\n";
    var l3, l4 := Label("height") + ['%', 'd'] + ",\n", Label("fps") + ['%', 'd'] + "\n";
    var o1 := Label("device") + StringArg(c.device) + ",\n";
    var o2 := Label("width") + FormatInt(c.width) + ",\n";
    var o3 := Label("height") + FormatInt(c.height) + ",\n";
    var o4 := Label("fps") + FormatInt(c.fps) + "\n";
    PrintsNext(h, [], h, l1, [Str(c.device)], o1);
    assert [] + [Str(c.device)] == [Str(c.device)];
    PrintsNext(h + l1, [Str(c.device)], h + o1, l2, [Num(c.width)], o2);
    PrintsNext(h + l1 + l2, [Str(c.device)] + [Num(c.width)], h + o1 + o2, l3, [Num(c.height)], o3);
    PrintsNext(h + l1 + l2 + l3, [Str(c.device)] + [Num(c.width)] + [Num(c.height)], h + o1 + o2 + o3, l4, [Num(c.fps)], o4);
    Flat(h, Label("device"), StringArg(c.device), ",\n");
    Flat(h + o1, Label("width"), FormatInt(c.width), ",\n");
    Flat(h + o1 + o2, Label("height"), FormatInt(c.height), ",\n");
    Flat(h + o1 + o2 + o3, Label("fps"), FormatInt(c.fps), "\n");
  }

  /** A section of one string and one number. */
  lemma PairPrints(name: string, first: string, s: string, second: string, conv: char, i: int)
    requires '%' !in Head(name) && '%' !in first && '%' !in second && (conv == 'd' || conv == 'u')
    ensures Prints(Head(name) + (Label(first) + "\"%s\",\n") + (Label(second) + ['%', conv] + "\n"), [Str(s)] + [Num(i)],
                   Head(name) + Label(first) + StringArg(s) + ",\n" + Label(second) + FormatInt(i) + "\n")
  {
    hide Prints, FormatInt, StringArg, Head, Label;
    var h := Head(name);
    PrintsFixed(h);
    PrintsString(first, s);
    PrintsNumber(second, conv, "\n", i);
    var o1, o2 := Label(first) + StringArg(s) + ",\n", Label(second) + FormatInt(i) + "\n";
    PrintsNext(h, [], h, Label(first) + "\"%s\",\n", [Str(s)], o1);
    assert [] + [Str(s)] == [Str(s)];
    PrintsNext(h + (Label(first) + "\"%s\",\n"), [Str(s)], h + o1, Label(second) + ['%', conv] + "\n", [Num(i)], o2);
    Flat(h, Label(first), StringArg(s), ",\n");
    Flat(h + o1, Label(second), FormatInt(i), "\n");
  }

  lemma HeadPlain()
    ensures '%' !in Head("camera") && '%' !in Head("network") && '%' !in Head("serial")
  {
  }

  lemma CameraFormatIs()
    ensures CAMERA_FORMAT == Head("camera") + (Label("device") + "\"%s\",\n") + (Label("width") + ['%', 'd'] + ",\n")
                             + (Label("height") + ['%', 'd'] + ",\n") + (Label("fps") + ['%', 'd'] + "\n")
  {
    assert Head("camera") == "  \"camera\": {\n";
    assert Label("device") + "\"%s\",\n" == "    \"device\": \"%s\",\n";
    assert Label("width") + ['%', 'd'] + ",\n" == "    \"width\": %d,\n";
    assert Label("height") + ['%', 'd'] + ",\n" == "    \"height\": %d,\n";
    assert Label("fps") + ['%', 'd'] + "\n" == "    \"fps\": %d\n";
  }

  lemma NetworkFormatIs()
    ensures NETWORK_FORMAT == Head("network") + (Label("bind") + "\"%s\",\n") + (Label("port") + ['%', 'u'] + "\n")
  {
    assert Head("network") == "  \"network\": {\n";
    assert Label("bind") + "\"%s\",\n" == "    \"bind\": \"%s\",\n";
    assert Label("port") + ['%', 'u'] + "\n" == "    \"port\": %u\n";
  }

  lemma SerialFormatIs()
    ensures SERIAL_FORMAT == Head("serial") + (Label("device") + "\"%s\",\n") + (Label("baud") + ['%', 'd'] + "\n")
  {
    assert Head("serial") == "  \"serial\": {\n";
    assert Label("device") + "\"%s\",\n" == "    \"device\": \"%s\",\n";
    assert Label("baud") + ['%', 'd'] + "\n" == "    \"baud\": %d\n";
  }

  lemma NetworkPrints(c: NetworkConf) returns (body: string)
    ensures Prints(NETWORK_FORMAT, NetworkArguments(c), body + "\n") && NetworkBlock(c) == body + "\n  }"
  {
    hide Prints, FormatInt, StringArg, Head, Label;
    body := Head("network") + Label("bind") + StringArg(c.bind) + ",\n" + Label("port") + FormatInt(c.port);
    NetworkFormatIs();
    HeadPlain();
    PairPrints("network", "bind", c.bind, "port", 'u', c.port);
  }

  lemma SerialPrints(c: SerialConf) returns (body: string)
    ensures Prints(SERIAL_FORMAT, SerialArguments(c), body + "\n") && SerialBlock(c) == body + "\n  }"
  {
    hide Prints, FormatInt, StringArg, Head, Label;
    body := Head("serial") + Label("device") + StringArg(c.device) + ",\n" + Label("baud") + FormatInt(c.baud);
    SerialFormatIs();
    HeadPlain();
    PairPrints("serial", "device", c.device, "baud", 'd', c.baud);
  }

  /** The last line of a section closes it. */
  lemma Closing(block: string, body: string, end: string)
    requires block == body + "\n  }"
    ensures block + end == body + "\n" + ("  }" + end)
  {
  }

  lemma FivePieces(open: string, a: string, b: string, c: string, sep: string, end: string)
    ensures open + (a + "\n") + ("  }" + sep) + (b + "\n") + ("  }" + sep) + (c + "\n") + ("  }" + end)
         == open + (a + "\n  }") + sep + (b + "\n  }") + sep + (c + "\n  }") + end
  {
    Closing(a + "\n  }", a, sep);
    Closing(b + "\n  }", b, sep);
    Closing(c + "\n  }", c, end);
  }

  /** A section and its closing line. */
  lemma SectionPrints(f: string, a: seq<Arg>, out: string, section: string, b: seq<Arg>, body: string, end: string)
    requires Prints(f, a, out) && Prints(section, b, body) && '%' !in end
    ensures Prints(f + section + end, a + b, out + body + end)
  {
    hide Prints;
    PrintsNext(f, a, out, section, b, body);
    PrintsFixed(end);
    PrintsNext(f + section, a + b, out + body, end, [], end);
    assert (a + b) + [] == a + b;
  }

  /** The format, interpreted over the arguments, gives the specified text. */
  lemma FormatIsSaved(c: Config)
    ensures Prints(FORMAT, Arguments(c), Saved(c))
  {
    hide Prints, CameraBlock, NetworkBlock, SerialBlock, CameraArguments, NetworkArguments, SerialArguments;
    var (ca, na, sa) := (CameraArguments(c.camera), NetworkArguments(c.network), SerialArguments(c.serial));
    var a := CameraPrints(c.camera);
    var b := NetworkPrints(c.network);
    var s := SerialPrints(c.serial);
    var f0, f1 := "{\n", "{\n" + CAMERA_FORMAT + "  },\n";
    PrintsFixed(f0);
    SectionPrints(f0, [], f0, CAMERA_FORMAT, ca, a + "\n", "  },\n");
    assert [] + ca == ca;
    SectionPrints(f1, ca, f0 + (a + "\n") + "  },\n", NETWORK_FORMAT, na, b + "\n", "  },\n");
    SectionPrints(f1 + NETWORK_FORMAT + "  },\n", ca + na, f0 + (a + "\n") + "  },\n" + (b + "\n") + "  },\n",
                  SERIAL_FORMAT, sa, s + "\n", "  }\n}\n");
    assert "  },\n" == "  }" + ",\n" && "  }\n}\n" == "  }" + "\n}\n";
    FivePieces(f0, a, b, s, ",\n", "\n}\n");
  }

  /** The format line for line, and its eight arguments in order. */
  lemma FormatSpelled(c: Config)
    ensures FORMAT
            == "{\n"
               + ("  \"camera\": {\n" + "    \"device\": \"%s\",\n" + "    \"width\": %d,\n" + "    \"height\": %d,\n"
                  + "    \"fps\": %d\n") + "  },\n"
               + ("  \"network\": {\n" + "    \"bind\": \"%s\",\n" + "    \"port\": %u\n") + "  },\n"
               + ("  \"serial\": {\n" + "    \"device\": \"%s\",\n" + "    \"baud\": %d\n") + "  }\n}\n"
    ensures Arguments(c)
            == [Str(c.camera.device), Num(c.camera.width), Num(c.camera.height), Num(c.camera.fps),
                Str(c.network.bind), Num(c.network.port), Str(c.serial.device), Num(c.serial.baud)]
  {
  }

  // ----- the printed text as JSON syntax -----

  /** Nothing to escape. */
  predicate Tame(v: string) {
    forall i | 0 <= i < |v| :: v[i] != '"' && v[i] != '\\'
  }

  predicate NoNul(v: string) {
    forall i | 0 <= i < |v| :: v[i] != '\0'
  }

  /** What %s and the parser leave alone. */
  predicate Clean(s: string) {
    Tame(s) && NoNul(s)
  }

  lemma {:induction false} CleanString(s: string)
    requires Clean(s)
    ensures CStr(s) == s && GoodString(RenderString(s)) && Decode(RenderString(s)) == s && CharsText(RenderString(s)) == s
  {
    RenderStringReads(s);
    RenderPlain(s);
    if s != "" {
      assert Clean(s[1..]);
      CleanString(s[1..]);
    }
  }

  function IntSyntax(i: int): Syntax {
    NumberText(RenderInt(i))
  }

  lemma IntSyntaxOk(i: int)
    requires INT64_MIN <= i <= INT64_MAX
    ensures Good(IntSyntax(i)) && Text(IntSyntax(i)) == FormatInt(i) && Value(IntSyntax(i)) == Int(i)
  {
    hide NumberLexeme, NumberNode, GoodNumber, RenderInt, FormatInt;
    RenderIntReads(i);
  }

  function StringSyntax(s: string): Syntax {
    StringText(RenderString(s))
  }

  lemma StringSyntaxOk(s: string)
    requires Clean(s)
    ensures Good(StringSyntax(s)) && Text(StringSyntax(s)) == StringArg(s) && Value(StringSyntax(s)) == String(s)
  {
    hide RenderString;
    CleanString(s);
  }

  /** The members of an object printed one to a line, `indent` before each and `close` after the last. */
  function Lines(indent: string, fields: seq<(string, Syntax)>, close: string): seq<Member> {
    if fields == [] then []
    else
      [Member(indent, RenderString(fields[0].0), "", " ", fields[0].1, if |fields| == 1 then close else "")]
      + Lines(indent, fields[1..], close)
  }

  /** Their text, with the commas. */
  function LinesText(indent: string, fields: seq<(string, Syntax)>, close: string): string {
    if fields == [] then ""
    else
      indent + ("\"" + fields[0].0 + "\": ") + Text(fields[0].1)
      + (if |fields| == 1 then close else "," + LinesText(indent, fields[1..], close))
  }

  predicate GoodFields(fields: seq<(string, Syntax)>) {
    forall i | 0 <= i < |fields| :: Clean(fields[i].0) && Good(fields[i].1)
  }

  lemma {:induction false} LinesOk(indent: string, fields: seq<(string, Syntax)>, close: string)
    requires White(indent) && White(close) && GoodFields(fields)
    ensures GoodMembers(Lines(indent, fields, close))
    ensures MembersText(Lines(indent, fields, close)) == LinesText(indent, fields, close)
    decreases |fields|
  {
    hide Text, Good, White, Clean;
    if fields != [] {
      var (k, v) := fields[0];
      var rest := fields[1..];
      assert GoodFields(rest) by {
        assert forall i | 0 <= i < |rest| :: rest[i] == fields[i + 1];
      }
      LinesOk(indent, rest, close);
      LineOk(indent, fields, close);
    }
  }

  lemma LinesFirst(indent: string, fields: seq<(string, Syntax)>, close: string) returns (m: Member)
    requires fields != []
    ensures m == Member(indent, RenderString(fields[0].0), "", " ", fields[0].1, if |fields| == 1 then close else "")
    ensures Lines(indent, fields, close) == [m] + Lines(indent, fields[1..], close)
    ensures Lines(indent, fields, close)[1..] == Lines(indent, fields[1..], close)
    ensures |Lines(indent, fields, close)| == |fields|
  {
    hide RenderString;
    m := Member(indent, RenderString(fields[0].0), "", " ", fields[0].1, if |fields| == 1 then close else "");
    LinesLength(indent, fields, close);
  }

  lemma {:induction false} LineOk(indent: string, fields: seq<(string, Syntax)>, close: string)
    requires fields != [] && White(indent) && White(close) && Clean(fields[0].0) && Good(fields[0].1)
    requires GoodMembers(Lines(indent, fields[1..], close))
    requires MembersText(Lines(indent, fields[1..], close)) == LinesText(indent, fields[1..], close)
    ensures GoodMembers(Lines(indent, fields, close))
    ensures MembersText(Lines(indent, fields, close)) == LinesText(indent, fields, close)
  {
    hide Text, Good, Clean, GoodString, RenderString, LinesText, Lines, KeyText;
    var ms := Lines(indent, fields, close);
    var m := LinesFirst(indent, fields, close);
    CleanString(fields[0].0);
    KeyOf(m, fields[0].0);
    LineText(indent, fields, close, fields[1..]);
    MemberTextIs(ms, m);
  }

  lemma MemberTextIs(ms: seq<Member>, m: Member)
    requires ms != [] && ms[0] == m
    ensures MembersText(ms)
            == m.before + KeyText(m) + Text(m.value) + m.after + (if |ms| == 1 then "" else "," + MembersText(ms[1..]))
    ensures m.after == "" && |ms| > 1 ==>
              MembersText(ms) == m.before + KeyText(m) + Text(m.value) + ("," + MembersText(ms[1..]))
    ensures |ms| == 1 ==> MembersText(ms) == m.before + KeyText(m) + Text(m.value) + m.after
  {
    hide Text, KeyText;
    var t := m.before + KeyText(m) + Text(m.value);
    assert t + "" == t && t + m.after + "" == t + m.after;
  }

  lemma LineText(indent: string, fields: seq<(string, Syntax)>, close: string, rest: seq<(string, Syntax)>)
    requires fields != [] && rest == fields[1..]
    ensures LinesText(indent, fields, close)
            == indent + ("\"" + fields[0].0 + "\": ") + Text(fields[0].1)
               + (if |fields| == 1 then close else "," + LinesText(indent, rest, close))
  {
    hide Text;
  }

  lemma {:induction false} LinesLength(indent: string, fields: seq<(string, Syntax)>, close: string)
    ensures |Lines(indent, fields, close)| == |fields|
    decreases |fields|
  {
    if fields != [] {
      LinesLength(indent, fields[1..], close);
    }
  }

  lemma KeyOf(m: Member, k: string)
    requires CharsText(m.key) == k && m.colonBefore == "" && m.colonAfter == " "
    ensures KeyText(m) == "\"" + k + "\": "
  {
  }

  // ----- the whole file -----

  function CameraFields(c: CameraConf): seq<(string, Syntax)> {
    [("device", StringSyntax(c.device)), ("width", IntSyntax(c.width)),
     ("height", IntSyntax(c.height)), ("fps", IntSyntax(c.fps))]
  }

  function NetworkFields(c: NetworkConf): seq<(string, Syntax)> {
    [("bind", StringSyntax(c.bind)), ("port", IntSyntax(c.port))]
  }

  function SerialFields(c: SerialConf): seq<(string, Syntax)> {
    [("device", StringSyntax(c.device)), ("baud", IntSyntax(c.baud))]
  }

  /** A section: fields indented by four, the brace by two. */
  function Section(fields: seq<(string, Syntax)>): Syntax {
    ObjectText("", Lines("\n    ", fields, "\n  "))
  }

  function FileFields(c: Config): seq<(string, Syntax)> {
    [("camera", Section(CameraFields(c.camera))), ("network", Section(NetworkFields(c.network))),
     ("serial", Section(SerialFields(c.serial)))]
  }

  function FileSyntax(c: Config): Syntax {
    ObjectText("", Lines("\n  ", FileFields(c), "\n"))
  }

  predicate CleanConfig(c: Config) {
    Clean(c.camera.device) && Clean(c.network.bind) && Clean(c.serial.device)
  }

  lemma SectionOk(fields: seq<(string, Syntax)>)
    requires fields != [] && GoodFields(fields)
    ensures Good(Section(fields))
    ensures Text(Section(fields)) == "{" + LinesText("\n    ", fields, "\n  ") + "}"
  {
    hide GoodFields, LinesText, GoodMembers, MembersText;
    LinesOk("\n    ", fields, "\n  ");
    LinesLength("\n    ", fields, "\n  ");
  }

  lemma TwoGood(a: (string, Syntax), b: (string, Syntax))
    requires Clean(a.0) && Good(a.1) && Clean(b.0) && Good(b.1)
    ensures GoodFields([a, b])
  {
    hide Clean, Good;
  }

  lemma ThreeGood(a: (string, Syntax), b: (string, Syntax), c: (string, Syntax))
    requires Clean(a.0) && Good(a.1) && Clean(b.0) && Good(b.1) && Clean(c.0) && Good(c.1)
    ensures GoodFields([a, b, c])
  {
    hide Clean, Good;
  }

  lemma FourGood(a: (string, Syntax), b: (string, Syntax), c: (string, Syntax), d: (string, Syntax))
    requires Clean(a.0) && Good(a.1) && Clean(b.0) && Good(b.1) && Clean(c.0) && Good(c.1) && Clean(d.0) && Good(d.1)
    ensures GoodFields([a, b, c, d])
  {
    hide Clean, Good;
  }

  lemma CameraGood(c: CameraConf)
    requires Clean(c.device)
    ensures GoodFields(CameraFields(c))
  {
    assert Clean("device") && Clean("width") && Clean("height") && Clean("fps");
    hide Clean, Good, GoodFields, IntSyntax, StringSyntax;
    StringSyntaxOk(c.device);
    IntSyntaxOk(c.width);
    IntSyntaxOk(c.height);
    IntSyntaxOk(c.fps);
    FourGood(("device", StringSyntax(c.device)), ("width", IntSyntax(c.width)),
             ("height", IntSyntax(c.height)), ("fps", IntSyntax(c.fps)));
  }

  lemma NetworkGood(c: NetworkConf)
    requires Clean(c.bind)
    ensures GoodFields(NetworkFields(c))
  {
    assert Clean("bind") && Clean("port");
    hide Clean, Good, GoodFields, IntSyntax, StringSyntax;
    StringSyntaxOk(c.bind);
    IntSyntaxOk(c.port);
    TwoGood(("bind", StringSyntax(c.bind)), ("port", IntSyntax(c.port)));
  }

  lemma SerialGood(c: SerialConf)
    requires Clean(c.device)
    ensures GoodFields(SerialFields(c))
  {
    assert Clean("device") && Clean("baud");
    hide Clean, Good, GoodFields, IntSyntax, StringSyntax;
    StringSyntaxOk(c.device);
    IntSyntaxOk(c.baud);
    TwoGood(("device", StringSyntax(c.device)), ("baud", IntSyntax(c.baud)));
  }

  // ----- the map the parser builds from a section -----

  function FieldMap(fields: seq<(string, Syntax)>, acc: map<string, JsonNode>): map<string, JsonNode> {
    if fields == [] then acc else FieldMap(fields[1..], acc[fields[0].0 := Value(fields[0].1)])
  }

  lemma {:induction false} LinesMap(indent: string, fields: seq<(string, Syntax)>, close: string, acc: map<string, JsonNode>)
    requires GoodFields(fields)
    ensures MemberMap(Lines(indent, fields, close), acc) == FieldMap(fields, acc)
    decreases |fields|
  {
    hide Value, Good, Clean, Decode, RenderString;
    if fields != [] {
      var rest := fields[1..];
      assert forall i | 0 <= i < |rest| :: rest[i] == fields[i + 1];
      CleanString(fields[0].0);
      LinesMap(indent, rest, close, acc[fields[0].0 := Value(fields[0].1)]);
      assert Lines(indent, fields, close)[1..] == Lines(indent, rest, close);
    }
  }

  lemma FieldMap2(a: (string, Syntax), b: (string, Syntax), m: map<string, JsonNode>)
    ensures FieldMap([a, b], m) == m[a.0 := Value(a.1)][b.0 := Value(b.1)]
  {
    hide Value;
    var m' := m[a.0 := Value(a.1)];
    assert [a, b][1..] == [b];
    assert FieldMap([], m'[b.0 := Value(b.1)]) == m'[b.0 := Value(b.1)];
    assert [b][1..] == [];
    assert FieldMap([b], m') == m'[b.0 := Value(b.1)];
  }

  lemma FieldMap3(a: (string, Syntax), b: (string, Syntax), c: (string, Syntax), m: map<string, JsonNode>)
    ensures FieldMap([a, b, c], m) == m[a.0 := Value(a.1)][b.0 := Value(b.1)][c.0 := Value(c.1)]
  {
    hide Value;
    assert [a, b, c][1..] == [b, c];
    FieldMap2(b, c, m[a.0 := Value(a.1)]);
  }

  lemma FieldMap4(a: (string, Syntax), b: (string, Syntax), c: (string, Syntax), d: (string, Syntax), m: map<string, JsonNode>)
    ensures FieldMap([a, b, c, d], m)
            == m[a.0 := Value(a.1)][b.0 := Value(b.1)][c.0 := Value(c.1)][d.0 := Value(d.1)]
  {
    hide Value;
    assert [a, b, c, d][1..] == [b, c, d];
    FieldMap3(b, c, d, m[a.0 := Value(a.1)]);
  }

  lemma SectionValue(fields: seq<(string, Syntax)>)
    requires GoodFields(fields)
    ensures Value(Section(fields)) == Object(FieldMap(fields, map[]))
  {
    hide GoodFields, FieldMap, Lines;
    LinesMap("\n    ", fields, "\n  ", map[]);
  }

  lemma CameraValue(c: CameraConf)
    requires Clean(c.device)
    ensures var node := Value(Section(CameraFields(c)));
            && node.Object? && node.At("device") == String(c.device) && node.At("width") == Int(c.width)
            && node.At("height") == Int(c.height) && node.At("fps") == Int(c.fps)
  {
    hide GoodFields, Section, FieldMap, IntSyntax, StringSyntax, Value, Good, Clean;
    CameraGood(c);
    SectionValue(CameraFields(c));
    StringSyntaxOk(c.device);
    IntSyntaxOk(c.width);
    IntSyntaxOk(c.height);
    IntSyntaxOk(c.fps);
    FieldMap4(("device", StringSyntax(c.device)), ("width", IntSyntax(c.width)),
              ("height", IntSyntax(c.height)), ("fps", IntSyntax(c.fps)), map[]);
    assert |"device"| == 6 && |"width"| == 5 && |"fps"| == 3 && "device"[0] != "height"[0];
  }

  lemma NetworkValue(c: NetworkConf)
    requires Clean(c.bind)
    ensures var node := Value(Section(NetworkFields(c)));
            node.Object? && node.At("bind") == String(c.bind) && node.At("port") == Int(c.port)
  {
    hide GoodFields, Section, FieldMap, IntSyntax, StringSyntax, Value, Good, Clean;
    NetworkGood(c);
    SectionValue(NetworkFields(c));
    StringSyntaxOk(c.bind);
    IntSyntaxOk(c.port);
    FieldMap2(("bind", StringSyntax(c.bind)), ("port", IntSyntax(c.port)), map[]);
    assert "bind"[0] != "port"[0];
  }

  lemma SerialValue(c: SerialConf)
    requires Clean(c.device)
    ensures var node := Value(Section(SerialFields(c)));
            node.Object? && node.At("device") == String(c.device) && node.At("baud") == Int(c.baud)
  {
    hide GoodFields, Section, FieldMap, IntSyntax, StringSyntax, Value, Good, Clean;
    SerialGood(c);
    SectionValue(SerialFields(c));
    StringSyntaxOk(c.device);
    IntSyntaxOk(c.baud);
    FieldMap2(("device", StringSyntax(c.device)), ("baud", IntSyntax(c.baud)), map[]);
    assert |"device"| != |"baud"|;
  }

  lemma FileGood(c: Config)
    requires CleanConfig(c)
    ensures GoodFields(FileFields(c))
  {
    assert Clean("camera") && Clean("network") && Clean("serial");
    hide GoodFields, Section, Good, CameraFields, NetworkFields, SerialFields;
    CameraGood(c.camera);
    NetworkGood(c.network);
    SerialGood(c.serial);
    FieldsNonempty(c);
    SectionOk(CameraFields(c.camera));
    SectionOk(NetworkFields(c.network));
    SectionOk(SerialFields(c.serial));
    ThreeGood(("camera", Section(CameraFields(c.camera))), ("network", Section(NetworkFields(c.network))),
              ("serial", Section(SerialFields(c.serial))));
  }

  lemma FieldsNonempty(c: Config)
    ensures CameraFields(c.camera) != [] && NetworkFields(c.network) != [] && SerialFields(c.serial) != []
  {
  }

  lemma FileValue(c: Config)
    requires CleanConfig(c)
    ensures var root := Value(FileSyntax(c));
            && root.Object?
            && root.At("camera") == Value(Section(CameraFields(c.camera)))
            && root.At("network") == Value(Section(NetworkFields(c.network)))
            && root.At("serial") == Value(Section(SerialFields(c.serial)))
  {
    hide Section, FieldMap, Value, Good, CameraFields, NetworkFields, SerialFields, Lines, FileSyntax, GoodFields, MemberMap;
    hide JsonNode.At, JsonNode.Has;
    FileGood(c);
    LinesMap("\n  ", FileFields(c), "\n", map[]);
    FileObject(c);
    var a, b, s := Section(CameraFields(c.camera)), Section(NetworkFields(c.network)), Section(SerialFields(c.serial));
    FieldMap3(("camera", a), ("network", b), ("serial", s), map[]);
    ThreeKeys(Value(a), Value(b), Value(s));
  }

  lemma ThreeKeys(a: JsonNode, b: JsonNode, s: JsonNode)
    ensures var root := Object(map[]["camera" := a]["network" := b]["serial" := s]);
            root.At("camera") == a && root.At("network") == b && root.At("serial") == s
  {
    assert |"camera"| == 6 && |"network"| == 7 && "camera"[0] != "serial"[0];
  }

  lemma FileObject(c: Config)
    ensures Value(FileSyntax(c)) == Object(MemberMap(Lines("\n  ", FileFields(c), "\n"), map[]))
  {
    hide FileFields, Lines, MemberMap;
  }

  // ----- the printed text is the text of that syntax -----

  lemma LabelIs(name: string)
    ensures "\n" + Label(name) == "\n    " + ("\"" + name + "\": ")
  {
  }

  lemma HeadIs(name: string)
    ensures "\n" + Head(name) == "\n  " + ("\"" + name + "\": ") + "{\n"
  {
  }

  /** The last line of a section. */
  lemma LastLine(a: (string, Syntax))
    ensures LinesText("\n    ", [a], "\n  ") == "\n" + (Label(a.0) + Text(a.1) + "\n  ")
  {
    hide Text, LinesText, Label;
    LineText("\n    ", [a], "\n  ", []);
    LabelIs(a.0);
    assert "\n" + (Label(a.0) + Text(a.1) + "\n  ") == "\n" + Label(a.0) + Text(a.1) + "\n  ";
  }

  /** A line before others. */
  lemma NextLine(a: (string, Syntax), more: seq<(string, Syntax)>, text: string)
    requires more != [] && LinesText("\n    ", more, "\n  ") == "\n" + text
    ensures LinesText("\n    ", [a] + more, "\n  ") == "\n" + (Label(a.0) + Text(a.1) + ",\n" + text)
  {
    hide Text, LinesText, Label;
    var all := [a] + more;
    assert all[1..] == more;
    LineText("\n    ", all, "\n  ", more);
    LabelIs(a.0);
    CommaLine(Label(a.0), Text(a.1), text);
  }

  lemma CommaLine(l: string, v: string, text: string)
    ensures "\n" + l + v + ("," + ("\n" + text)) == "\n" + (l + v + ",\n" + text)
  {
    assert "," + ("\n" + text) == ",\n" + text;
  }

  lemma SectionText(name: string, fields: seq<(string, Syntax)>, text: string)
    requires fields != [] && GoodFields(fields) && LinesText("\n    ", fields, "\n  ") == "\n" + text
    ensures "\n" + (Head(name) + text + "}") == "\n  " + ("\"" + name + "\": ") + Text(Section(fields))
  {
    hide LinesText, GoodFields, Section, Text, Head;
    SectionOk(fields);
    HeadIs(name);
    var x := "\n  " + ("\"" + name + "\": ");
    assert "\n" + (Head(name) + text + "}") == "\n" + Head(name) + text + "}";
    assert x + "{\n" + text + "}" == x + ("{" + ("\n" + text) + "}");
  }

  lemma TwoLines(a: (string, Syntax), b: (string, Syntax))
    ensures LinesText("\n    ", [a, b], "\n  ")
            == "\n" + (Label(a.0) + Text(a.1) + ",\n" + (Label(b.0) + Text(b.1) + "\n  "))
  {
    hide Text, LinesText, Label;
    LastLine(b);
    NextLine(a, [b], Label(b.0) + Text(b.1) + "\n  ");
    assert [a, b] == [a] + [b];
  }

  lemma FourLines(a: (string, Syntax), b: (string, Syntax), c: (string, Syntax), d: (string, Syntax))
    ensures LinesText("\n    ", [a, b, c, d], "\n  ")
            == "\n" + (Label(a.0) + Text(a.1) + ",\n" + (Label(b.0) + Text(b.1) + ",\n"
                       + (Label(c.0) + Text(c.1) + ",\n" + (Label(d.0) + Text(d.1) + "\n  "))))
  {
    hide Text, LinesText, Label;
    TwoLines(c, d);
    assert [b] + [c, d] == [b, c, d] && [a] + [b, c, d] == [a, b, c, d];
    var t2 := Label(c.0) + Text(c.1) + ",\n" + (Label(d.0) + Text(d.1) + "\n  ");
    NextLine(b, [c, d], t2);
    NextLine(a, [b, c, d], Label(b.0) + Text(b.1) + ",\n" + t2);
  }

  lemma TwoFlat(h: string, l1: string, v1: string, l2: string, v2: string)
    ensures h + l1 + v1 + ",\n" + l2 + v2 + "\n  }" == h + (l1 + v1 + ",\n" + (l2 + v2 + "\n  ")) + "}"
  {
  }

  lemma FourFlat(h: string, l1: string, v1: string, l2: string, v2: string, l3: string, v3: string, l4: string, v4: string)
    ensures h + l1 + v1 + ",\n" + l2 + v2 + ",\n" + l3 + v3 + ",\n" + l4 + v4 + "\n  }"
            == h + (l1 + v1 + ",\n" + (l2 + v2 + ",\n" + (l3 + v3 + ",\n" + (l4 + v4 + "\n  ")))) + "}"
  {
    var t := l3 + v3 + ",\n" + (l4 + v4 + "\n  ");
    var p := h + l1 + v1 + ",\n" + l2 + v2 + ",\n";
    TwoFlat(p, l3, v3, l4, v4);
    assert p + t + "}" == h + (l1 + v1 + ",\n" + (l2 + v2 + ",\n" + t)) + "}";
  }

  lemma CameraText(c: CameraConf)
    requires Clean(c.device)
    ensures "\n" + CameraBlock(c) == "\n  " + ("\"" + "camera" + "\": ") + Text(Section(CameraFields(c)))
  {
    hide Clean, Good, GoodFields, IntSyntax, StringSyntax, Label, Head, Section, Text, LinesText, FormatInt, StringArg;
    StringSyntaxOk(c.device);
    IntSyntaxOk(c.width);
    IntSyntaxOk(c.height);
    IntSyntaxOk(c.fps);
    CameraGood(c);
    var (l1, l2, l3, l4) := (Label("device"), Label("width"), Label("height"), Label("fps"));
    var (v1, v2, v3, v4) := (StringArg(c.device), FormatInt(c.width), FormatInt(c.height), FormatInt(c.fps));
    FourLines(("device", StringSyntax(c.device)), ("width", IntSyntax(c.width)),
              ("height", IntSyntax(c.height)), ("fps", IntSyntax(c.fps)));
    SectionText("camera", CameraFields(c), l1 + v1 + ",\n" + (l2 + v2 + ",\n" + (l3 + v3 + ",\n" + (l4 + v4 + "\n  "))));
    FourFlat(Head("camera"), l1, v1, l2, v2, l3, v3, l4, v4);
  }

  lemma NetworkText(c: NetworkConf)
    requires Clean(c.bind)
    ensures "\n" + NetworkBlock(c) == "\n  " + ("\"" + "network" + "\": ") + Text(Section(NetworkFields(c)))
  {
    hide Clean, Good, GoodFields, IntSyntax, StringSyntax, Label, Head, Section, Text, LinesText, FormatInt, StringArg;
    StringSyntaxOk(c.bind);
    IntSyntaxOk(c.port);
    NetworkGood(c);
    var (l1, v1, l2, v2) := (Label("bind"), StringArg(c.bind), Label("port"), FormatInt(c.port));
    TwoLines(("bind", StringSyntax(c.bind)), ("port", IntSyntax(c.port)));
    SectionText("network", NetworkFields(c), l1 + v1 + ",\n" + (l2 + v2 + "\n  "));
    TwoFlat(Head("network"), l1, v1, l2, v2);
  }

  lemma SerialText(c: SerialConf)
    requires Clean(c.device)
    ensures "\n" + SerialBlock(c) == "\n  " + ("\"" + "serial" + "\": ") + Text(Section(SerialFields(c)))
  {
    hide Clean, Good, GoodFields, IntSyntax, StringSyntax, Label, Head, Section, Text, LinesText, FormatInt, StringArg;
    StringSyntaxOk(c.device);
    IntSyntaxOk(c.baud);
    SerialGood(c);
    var (l1, v1, l2, v2) := (Label("device"), StringArg(c.device), Label("baud"), FormatInt(c.baud));
    TwoLines(("device", StringSyntax(c.device)), ("baud", IntSyntax(c.baud)));
    SectionText("serial", SerialFields(c), l1 + v1 + ",\n" + (l2 + v2 + "\n  "));
    TwoFlat(Head("serial"), l1, v1, l2, v2);
  }

  lemma ThreeLines(a: (string, Syntax), b: (string, Syntax), c: (string, Syntax), s: string, t: string, u: string)
    requires s == "\n  " + ("\"" + a.0 + "\": ") + Text(a.1)
    requires t == "\n  " + ("\"" + b.0 + "\": ") + Text(b.1)
    requires u == "\n  " + ("\"" + c.0 + "\": ") + Text(c.1)
    ensures LinesText("\n  ", [a, b, c], "\n") == s + ("," + (t + ("," + (u + "\n"))))
  {
    hide Text, LinesText;
    LineText("\n  ", [a, b, c], "\n", [b, c]);
    LineText("\n  ", [b, c], "\n", [c]);
    LineText("\n  ", [c], "\n", []);
  }

  lemma FileFlat(p: string, q: string, r: string)
    ensures "{\n" + p + ",\n" + q + ",\n" + r + "\n}\n"
            == "{" + (("\n" + p) + ("," + (("\n" + q) + ("," + (("\n" + r) + "\n"))))) + "}" + "\n"
  {
  }

  lemma ObjectTextIs(blank: string, ms: seq<Member>)
    requires ms != [] && White(blank) && GoodMembers(ms)
    ensures Text(ObjectText(blank, ms)) == "{" + MembersText(ms) + "}"
    ensures Good(ObjectText(blank, ms))
  {
    hide MembersText, GoodMembers;
  }

  lemma FileShell(c: Config)
    requires GoodFields(FileFields(c))
    ensures Good(FileSyntax(c)) && Text(FileSyntax(c)) == "{" + LinesText("\n  ", FileFields(c), "\n") + "}"
  {
    var fields := FileFields(c);
    assert |fields| == 3;
    LinesOk("\n  ", fields, "\n");
    LinesLength("\n  ", fields, "\n");
    hide GoodFields, GoodMembers, Lines, LinesText, FileFields, MembersText;
    ObjectTextIs("", Lines("\n  ", fields, "\n"));
  }

  lemma FileText(c: Config)
    requires CleanConfig(c)
    ensures Good(FileSyntax(c)) && Text(FileSyntax(c)) + "\n" == Saved(c)
  {
    hide Good, GoodFields, Section, CameraFields, NetworkFields, SerialFields, FileSyntax;
    hide CameraBlock, NetworkBlock, SerialBlock, LinesText, Text, Clean;
    FileGood(c);
    FileShell(c);
    CameraText(c.camera);
    NetworkText(c.network);
    SerialText(c.serial);
    var (p, q, r) := (CameraBlock(c.camera), NetworkBlock(c.network), SerialBlock(c.serial));
    ThreeLines(("camera", Section(CameraFields(c.camera))), ("network", Section(NetworkFields(c.network))),
               ("serial", Section(SerialFields(c.serial))), "\n" + p, "\n" + q, "\n" + r);
    FileFlat(p, q, r);
  }

  /**
   What save writes, load reads back: every field of every section, whatever the state
   before, for strings without quote, backslash or NUL and any numbers.
   */
  lemma SaveLoadRoundTrip(c: Config, prior: Config, trunc: string -> int)
    requires CleanConfig(c)
    ensures Loaded(Content(Saved(c)), prior, trunc) == (c, true)
  {
    hide Good, Section, CameraFields, NetworkFields, SerialFields, FileSyntax, Text, Saved, Clean, Value, Parse;
    FileText(c);
    var t := FileSyntax(c);
    assert "" + Text(t) + "\n" == Text(t) + "\n";
    FileValue(c);
    NotNumber(c);
    ParseComplete(t, "", "\n");
    CameraValue(c.camera);
    NetworkValue(c.network);
    SerialValue(c.serial);
    CastsKeep();
  }

  lemma NotNumber(c: Config)
    ensures !FileSyntax(c).NumberText?
  {
  }
}
