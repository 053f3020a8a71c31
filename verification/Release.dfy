/** The release guard as a whole: open the bundle, decode its manifest, check it. */
module Release {
  import opened Wrappers
  import opened Wire
  import opened Manifest
  import opened ManifestEncoding
  import opened Zip

  function Ascii(s: string): Bytes
    requires forall i :: 0 <= i < |s| ==> s[i] < 128 as char
  {
    seq<Byte>(|s|, i requires 0 <= i < |s| => var b: Byte := s[i] as int; b)
  }

  const MANIFEST_PATH := Ascii("base/manifest/AndroidManifest.xml")
  const EXPECTED_PACKAGE := Ascii("com.dcw.fastque")
  const EXPECTED_APPLICATION := Ascii("com.dcw.fastque.MainApplication")

  datatype LoadError = ZipFailed(zip: ZipError) | DecodeFailed(decode: DecodeError)

  datatype Failure =
    | WrongPackage
    | NoApplication
    | WrongApplication
    | Debuggable
    | TestOnly
    | NoMainActivity
    | FixedOrientation
    | VersionTooLow

  /** How the runtime turns attribute values into text and numbers; a number that is not finite is
      None. */
  datatype Conversions = Conversions(show: AttrValue -> Bytes, number: AttrValue -> Option<real>)

  /** The minimum version on the command line, after Number(). */
  datatype Minimum = Finite(value: real) | Infinite(positive: bool) | NotANumber

  /** versionCode < minVersionCode, which is false of anything that is not a number. */
  predicate Below(code: real, minimum: Minimum) {
    match minimum
    case Finite(value) => code < value
    case Infinite(positive) => positive
    case NotANumber => false
  }

  function Get(node: Node, key: Bytes): AttrValue {
    if key in node.attrs then node.attrs[key] else Undefined
  }

  /** pkg || expectedPackage, for the values an attribute can have. */
  function OrExpected(pkg: AttrValue): AttrValue {
    if pkg == Undefined || pkg == Text([]) || pkg == Flag(false) || pkg == Int(Fin(0)) || pkg == Int(NaN)
    then Text(EXPECTED_PACKAGE) else pkg
  }

  function ResolveClassName(name: AttrValue, pkg: Bytes): Option<Bytes> {
    if !name.Text? || name.text == [] then None
    else if name.text[0] == '.' as int then Some(pkg + name.text)
    else if '.' as int !in name.text then Some(pkg + ['.' as int] + name.text)
    else Some(name.text)
  }

  predicate IsTrue(v: AttrValue) {
    v == Flag(true) || v == Text(Ascii("true"))
  }

  // ---------- the requirement ----------

  ghost predicate IsActivity(n: Node) {
    n.name == Some(Ascii("activity"))
  }

  ghost predicate IsApplication(n: Node) {
    n.name == Some(Ascii("application"))
  }

  ghost predicate IsMainActivity(n: Node, pkg: Bytes) {
    ResolveClassName(Get(n, Ascii("name")), pkg) == Some(pkg + Ascii(".MainActivity"))
  }

  /** An application element that registers the expected class, is neither debuggable nor testOnly,
      declares the main activity and fixes no orientation. */
  ghost predicate GoodApplication(app: Node, pkg: Bytes) {
    && ResolveClassName(Get(app, Ascii("name")), pkg) == Some(EXPECTED_APPLICATION)
    && !IsTrue(Get(app, Ascii("debuggable")))
    && !IsTrue(Get(app, Ascii("testOnly")))
    && (exists i :: 0 <= i < |app.children| && IsActivity(app.children[i]) &&
          IsMainActivity(app.children[i], pkg))
    && (forall i :: 0 <= i < |app.children| && IsActivity(app.children[i]) ==>
          Get(app.children[i], Ascii("screenOrientation")) == Undefined)
  }

  ghost predicate Releasable(root: Node, minVersion: Option<Minimum>, conv: Conversions) {
    && Get(root, Ascii("package")) == Text(EXPECTED_PACKAGE)
    && (exists k :: 0 <= k < |root.children| && IsApplication(root.children[k]) &&
          GoodApplication(root.children[k], EXPECTED_PACKAGE) &&
          forall j :: 0 <= j < k ==> !IsApplication(root.children[j]))
    && (minVersion.Some? ==>
          var code := conv.number(Get(root, Ascii("versionCode")));
          code.Some? && !Below(code.value, minVersion.value))
  }

  // ---------- what the requirement accepts ----------

  /** The attribute values that name one class of a package: with a leading dot, alone, or in full, save in
      a package whose own name starts with a dot. */
  lemma ClassNames(name: AttrValue, pkg: Bytes, simple: Bytes)
    requires simple != [] && '.' as int !in simple
    ensures var full := pkg + ['.' as int] + simple;
            ResolveClassName(name, pkg) == Some(full) <==>
            name == Text(['.' as int] + simple) || name == Text(simple) ||
            (name == Text(full) && pkg != [] && pkg[0] != '.' as int)
  {
    var dot := ['.' as int];
    var full := pkg + dot + simple;
    assert full == pkg + (dot + simple);
    assert full[|pkg|] == '.' as int && full[|pkg|] in full;
    if name.Text? && name.text != [] {
      var text := name.text;
      assert (pkg + text)[|pkg|..] == text && full[|pkg|..] == dot + simple;
      assert (pkg + dot + text)[|pkg| + 1..] == text && full[|pkg| + 1..] == simple;
      assert (dot + simple)[0] == '.' as int && (pkg != [] ==> full[0] == pkg[0]);
    }
  }

  lemma AsciiJoin(s: string, t: string)
    requires forall i :: 0 <= i < |s| ==> s[i] < 128 as char
    requires forall i :: 0 <= i < |t| ==> t[i] < 128 as char
    ensures Ascii(s + t) == Ascii(s) + Ascii(t)
  {
  }

  /** The ways to name a class of the expected package, spelled out. */
  lemma ExpectedNames(name: AttrValue, simple: string)
    requires simple != "" && forall i :: 0 <= i < |simple| ==> simple[i] < 128 as char && simple[i] != '.'
    ensures ResolveClassName(name, EXPECTED_PACKAGE) == Some(Ascii("com.dcw.fastque." + simple)) <==>
            name == Text(Ascii("." + simple)) || name == Text(Ascii(simple)) ||
            name == Text(Ascii("com.dcw.fastque." + simple))
  {
    assert EXPECTED_PACKAGE[0] == 'c' as int;
    var dot := ['.' as int];
    assert Ascii(".") == dot;
    AsciiJoin("com.dcw.fastque", ".");
    AsciiJoin("com.dcw.fastque.", simple);
    AsciiJoin(".", simple);
    assert "com.dcw.fastque" + "." == "com.dcw.fastque.";
    ClassNames(name, EXPECTED_PACKAGE, Ascii(simple));
    hide ResolveClassName, Ascii;
  }

  /** Which elements pass for the main activity. */
  lemma MainActivityIs(n: Node)
    ensures IsMainActivity(n, EXPECTED_PACKAGE) <==>
            var name := Get(n, Ascii("name"));
            name == Text(Ascii(".MainActivity")) || name == Text(Ascii("MainActivity")) ||
            name == Text(Ascii("com.dcw.fastque.MainActivity"))
  {
    ExpectedNames(Get(n, Ascii("name")), "MainActivity");
    AsciiJoin("com.dcw.fastque", ".MainActivity");
    assert "com.dcw.fastque" + ".MainActivity" == "com.dcw.fastque." + "MainActivity" == "com.dcw.fastque.MainActivity";
    assert "." + "MainActivity" == ".MainActivity";
    hide Ascii, ResolveClassName, Get;
  }

  /** A written attribute is read as true exactly when its raw text is "true", or is missing or empty beside a
      compiled true or a compiled "true". */
  lemma TrueIff(a: Attribute)
    ensures IsTrue(AttributeValue(a)) <==>
            a.raw == Some(Ascii("true")) ||
            ((a.raw == None || a.raw == Some([])) &&
             (a.compiled == Some(CompiledBool(true)) || a.compiled == Some(CompiledString(Ascii("true")))))
  {
    assert Ascii("true")[0] == 't' as int;
  }

  // ---------- the check ----------

  method FindApplication(children: seq<Node>) returns (at: Option<nat>)
    ensures at.None? ==> forall i :: 0 <= i < |children| ==> !IsApplication(children[i])
    ensures at.Some? ==> at.value < |children| && IsApplication(children[at.value]) &&
                         forall j :: 0 <= j < at.value ==> !IsApplication(children[j])
  {
    var i := 0;
    while i < |children|
      invariant 0 <= i <= |children|
      invariant forall j :: 0 <= j < i ==> !IsApplication(children[j])
    {
      if children[i].name == Some(Ascii("application")) {
        return Some(i);
      }
      i := i + 1;
    }
    return None;
  }

  method CheckActivities(app: Node, pkg: Bytes) returns (failures: seq<Failure>)
    ensures failures == [] <==>
              (exists i :: 0 <= i < |app.children| && IsActivity(app.children[i]) &&
                 IsMainActivity(app.children[i], pkg)) &&
              (forall i :: 0 <= i < |app.children| && IsActivity(app.children[i]) ==>
                 Get(app.children[i], Ascii("screenOrientation")) == Undefined)
  {
    var hasMain := false;
    var fixedOnes := [];
    var i := 0;
    while i < |app.children|
      invariant 0 <= i <= |app.children|
      invariant hasMain <==>
                exists j :: 0 <= j < i && IsActivity(app.children[j]) && IsMainActivity(app.children[j], pkg)
      invariant fixedOnes == [] <==> forall j :: 0 <= j < i && IsActivity(app.children[j]) ==>
                  Get(app.children[j], Ascii("screenOrientation")) == Undefined
    {
      var child := app.children[i];
      if child.name == Some(Ascii("activity")) {
        if ResolveClassName(Get(child, Ascii("name")), pkg) == Some(pkg + Ascii(".MainActivity")) {
          hasMain := true;
        }
        if Get(child, Ascii("screenOrientation")) != Undefined {
          fixedOnes := fixedOnes + [FixedOrientation];
        }
      }
      i := i + 1;
    }
    failures := (if hasMain then [] else [NoMainActivity]) + fixedOnes;
  }

  method CheckApplication(app: Node, pkg: Bytes) returns (failures: seq<Failure>)
    ensures failures == [] <==> GoodApplication(app, pkg)
  {
    hide Ascii, ResolveClassName, IsTrue, IsActivity, IsMainActivity;
    failures := [];
    if ResolveClassName(Get(app, Ascii("name")), pkg) != Some(EXPECTED_APPLICATION) {
      failures := failures + [WrongApplication];
    }
    if IsTrue(Get(app, Ascii("debuggable"))) {
      failures := failures + [Debuggable];
    }
    if IsTrue(Get(app, Ascii("testOnly"))) {
      failures := failures + [TestOnly];
    }
    var more := CheckActivities(app, pkg);
    failures := failures + more;
  }

  /** The guard's list of failures is empty exactly when the manifest meets the requirement. */
  method VerifyManifest(root: Node, minVersion: Option<Minimum>, conv: Conversions) returns (failures: seq<Failure>)
    ensures failures == [] <==> Releasable(root, minVersion, conv)
  {
    hide Ascii, GoodApplication, IsApplication;
    failures := [];
    var pkg := Get(root, Ascii("package"));
    if pkg != Text(EXPECTED_PACKAGE) {
      failures := failures + [WrongPackage];
    }
    var at := FindApplication(root.children);
    if at.None? {
      failures := failures + [NoApplication];
      return;
    }
    var base := OrExpected(pkg);
    var text := if base.Text? then base.text else conv.show(base);
    var more := CheckApplication(root.children[at.value], text);
    failures := failures + more;
    if minVersion.Some? {
      var code := conv.number(Get(root, Ascii("versionCode")));
      if code.None? || Below(code.value, minVersion.value) {
        failures := failures + [VersionTooLow];
      }
    }
  }

  /** The minimum version: what is not a number, or minus infinity, asks for no more than a finite version,
      plus infinity is never met, and a finite minimum is met from itself on. */
  lemma MinimumIs(root: Node, minimum: Minimum, conv: Conversions)
    ensures Releasable(root, Some(minimum), conv) <==>
            Releasable(root, None, conv) &&
            var code := conv.number(Get(root, Ascii("versionCode")));
            code.Some? &&
            match minimum
            case NotANumber => true
            case Infinite(positive) => !positive
            case Finite(value) => code.value >= value
  {
    hide GoodApplication, IsApplication;
  }

  lemma SpecialNames()
    ensures UNDEFINED_NAME == Ascii("undefined") && PROTO == Ascii("__proto__")
  {
  }

  /** An attribute without a name is found under "undefined". */
  lemma UnnamedIsUndefined(element: Bytes, text: Bytes)
    requires ValidNode([NodeElement([ElemName(element), ElemAttr([AttrRaw(text)])])])
    ensures var ps := [NodeElement([ElemName(element), ElemAttr([AttrRaw(text)])])];
            NodeOf(Buffer(EncodeNode(ps))) == Ok(Node(Some(element), map[Ascii("undefined") := Text(text)], []))
  {
    SpecialNames();
    UnnamedMeaning(element, text);
    NodeDecodes([NodeElement([ElemName(element), ElemAttr([AttrRaw(text)])])]);
    hide *;
  }

  /** An attribute named "__proto__" is never found. */
  lemma {:induction false} ProtoIsNeverFound(attrs: seq<Attribute>)
    ensures Ascii("__proto__") !in AttributeMap(attrs)
  {
    SpecialNames();
    hide Ascii, AttributeValue;
    if attrs != [] { ProtoIsNeverFound(attrs[..|attrs| - 1]); }
  }

  // ---------- the whole guard ----------

  function LoadOf(archive: Bytes, inflate: Inflate): Result<Node, LoadError> {
    match EntryOf(archive, MANIFEST_PATH, inflate)
    case Err(e) => Err(ZipFailed(e))
    case Ok(entry) =>
      match NodeOf(Buffer(entry))
      case Err(e) => Err(DecodeFailed(e))
      case Ok(root) => Ok(root)
  }

  method LoadManifestFromAab(archive: Bytes, inflate: Inflate) returns (r: Result<Node, LoadError>)
    ensures r == LoadOf(archive, inflate)
  {
    var entry := ReadZipEntry(archive, MANIFEST_PATH, inflate);
    if entry.Err? {
      return Err(ZipFailed(entry.error));
    }
    var root := ReadXmlNode(Buffer(entry.value));
    return if root.Ok? then Ok(root.value) else Err(DecodeFailed(root.error));
  }

  method CheckBundle(archive: Bytes, inflate: Inflate, minVersion: Option<Minimum>, conv: Conversions)
    returns (r: Result<bool, LoadError>)
    ensures match LoadOf(archive, inflate)
            case Ok(root) => r == Ok(Releasable(root, minVersion, conv))
            case Err(e) => r == Err(e)
  {
    var root :- LoadManifestFromAab(archive, inflate);
    var failures := VerifyManifest(root, minVersion, conv);
    return Ok(failures == []);
  }

  /** Main result: for every bundle a writer can print whose first entry at the manifest path holds
      the encoding of an element tree, stored or deflated, the guard judges exactly that tree. */
  lemma GuardSeesTheWrittenManifest(a: Archive, k: nat, e: Element, inflate: Inflate)
    requires ValidArchive(a) && NoFalseEnd(a) && ValidNode(TreeParts(e))
    requires k < |a.entries| && a.entries[k].name == Ascii("base/manifest/AndroidManifest.xml")
    requires forall j :: 0 <= j < k ==> a.entries[j].name != a.entries[k].name
    requires var message := EncodeNode(TreeParts(e));
             (a.entries[k].how == 0 && a.entries[k].data == message) ||
             (a.entries[k].how == 8 && inflate(a.entries[k].data) == Some(message))
    ensures LoadOf(PrintZip(a), inflate) == Ok(TreeNode(e))
  {
    hide EntryOf, NodeOf, PrintZip, EncodeNode;
    ArchiveRoundTrip(a, MANIFEST_PATH, inflate);
    FirstMatchIs(a.entries, k, inflate);
    TreeRoundTrip(e);
  }
}
