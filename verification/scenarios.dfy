/**
 Concrete conversions: the device-export example, the naming and text rules
 on single elements, the input on which the " entry" deletion is not
 idempotent, and one on which the wrapper deletion hits twice.

 Each fact is proved in a lemma of its own. Paths are kept in the
 shape in which `process_element` builds them (one `+ " " +` per level),
 and are compared with a written-out string only once, at the end.
 */
module Scenarios {
  import opened PyStr
  import opened XmlTree
  import opened Xml2Cli

  /** One level down a single-child element below a non-empty path, where
      joining needs no stripping. */
  lemma Step(n: Node, path: string, segment: string)
    requires |n.children| == 1 && path != [] && !IsWs(path[0])
    requires PathSegment(n.tag, n.attrib) == segment && segment != [] && !IsWs(segment[|segment| - 1])
    ensures Process(n, path) == Process(n.children[0], path + " " + segment)
  {
    assert n.children[1..] == [];
    StripTrimmed(path + " " + segment);
  }

  /** A leaf with text below a non-empty path, where neither join needs
      stripping. */
  lemma Emit(n: Node, path: string, segment: string, text: string)
    requires n.IsLeaf() && path != [] && !IsWs(path[0])
    requires PathSegment(n.tag, n.attrib) == segment && segment != [] && !IsWs(segment[|segment| - 1])
    requires n.text == Some(text) && text != [] && !IsWs(text[|text| - 1])
    ensures Process(n, path) == [path + " " + segment + " " + text]
  {
    StripTrimmed(path + " " + segment);
    StripTrimmed(path + " " + segment + " " + text);
  }

  /** A command that starts with the wrapper and holds no other copy of it
      loses exactly that prefix. */
  lemma DropWrapperPrefix(rest: string)
    requires !Contains(rest, Wrapper)
    ensures DropWrapper(Wrapper + rest) == rest
  {
    var s := Wrapper + rest;
    assert OccursAt(s, Wrapper, 0) by { assert s[0..] == s; }
    ReplaceLeftmost(s, Wrapper, "", 0);
    assert s[|Wrapper|..] == rest;
    ReplaceNoMatch(rest, Wrapper, "");
  }

  // The device export
  // `<config><devices><entry name="localhost.localdomain"><network>
  //  <interface name="eth1">up</interface></network></entry></devices></config>`

  function Interface(): Node { Node("interface", map["name" := "eth1"], [], Some("up")) }
  function Network(): Node { Node("network", map[], [Interface()], None) }
  function DeviceEntry(): Node { Node("entry", map["name" := "localhost.localdomain"], [Network()], None) }
  function Devices(): Node { Node("devices", map[], [DeviceEntry()], None) }
  function DeviceConfig(): Node { Node("config", map[], [Devices()], None) }

  lemma InterfaceCommand(p: string)
    requires p != [] && !IsWs(p[0])
    ensures Process(Interface(), p) == [p + " " + ("interface" + " " + "eth1") + " " + "up"]
  {
    Emit(Interface(), p, "interface" + " " + "eth1", "up");
  }

  lemma NetworkCommand(p: string)
    requires p != [] && !IsWs(p[0])
    ensures Process(Network(), p) == [p + " " + "network" + " " + ("interface" + " " + "eth1") + " " + "up"]
  {
    Step(Network(), p, "network");
    InterfaceCommand(p + " " + "network");
  }

  lemma EntryCommand(p: string)
    requires p != [] && !IsWs(p[0])
    ensures Process(DeviceEntry(), p)
         == [p + " " + ("entry" + " " + "localhost.localdomain") + " " + "network" + " " + ("interface" + " " + "eth1") + " " + "up"]
  {
    Step(DeviceEntry(), p, "entry" + " " + "localhost.localdomain");
    NetworkCommand(p + " " + ("entry" + " " + "localhost.localdomain"));
  }

  lemma DevicesCommand(p: string)
    requires p != [] && !IsWs(p[0])
    ensures Process(Devices(), p)
         == [p + " " + "devices" + " " + ("entry" + " " + "localhost.localdomain") + " " + "network" + " " + ("interface" + " " + "eth1") + " " + "up"]
  {
    Step(Devices(), p, "devices");
    EntryCommand(p + " " + "devices");
  }

  /** The wrapper is exactly the path the device export builds down to the
      `entry` element, plus one space. */
  lemma WrapperIsDevicePath()
    ensures Wrapper == "config" + " " + "devices" + " " + ("entry" + " " + "localhost.localdomain") + " "
  {
  }

  lemma DevicesBelowConfig()
    ensures Process(Devices(), "config") == [Wrapper + "network" + " " + ("interface" + " " + "eth1") + " " + "up"]
  {
    DevicesCommand("config");
    WrapperIsDevicePath();
  }

  lemma ConfigStep()
    ensures Process(DeviceConfig(), "") == Process(Devices(), "config")
  {
    assert DeviceConfig().children[1..] == [];
  }

  /** The single raw command of the device export starts with the wrapper. */
  lemma DeviceRawCommand()
    ensures Process(DeviceConfig(), "") == [Wrapper + "network" + " " + ("interface" + " " + "eth1") + " " + "up"]
  {
    ConfigStep();
    DevicesBelowConfig();
  }

  lemma Regroup(w: string, a: string, b: string, c: string, d: string, e: string)
    ensures w + a + b + c + d + e == w + (a + b + c + d + e)
  {
  }

  lemma DeviceDropWrapper()
    ensures DropWrapper(Wrapper + "network" + " " + ("interface" + " " + "eth1") + " " + "up")
         == "network" + " " + ("interface" + " " + "eth1") + " " + "up"
  {
    var rest := "network" + " " + ("interface" + " " + "eth1") + " " + "up";
    Regroup(Wrapper, "network", " ", "interface" + " " + "eth1", " ", "up");
    ShortNoMatch(rest, Wrapper);
    DropWrapperPrefix(rest);
  }

  lemma DeviceDropEntry()
    ensures DropEntry("network" + " " + ("interface" + " " + "eth1") + " " + "up")
         == "network" + " " + ("interface" + " " + "eth1") + " " + "up"
  {
    var rest := "network" + " " + ("interface" + " " + "eth1") + " " + "up";
    MissingCharNoMatch(rest, EntryText, 'y');
    ReplaceNoMatch(rest, EntryText, "");
  }

  lemma DeviceNormalize()
    ensures Normalize(Wrapper + "network" + " " + ("interface" + " " + "eth1") + " " + "up")
         == "set network interface eth1 up"
  {
    DeviceDropWrapper();
    DeviceDropEntry();
  }

  /** The device export becomes the single command
      "set network interface eth1 up". */
  lemma DeviceExport()
    ensures Convert(DeviceConfig()) == ["set network interface eth1 up"]
  {
    DeviceRawCommand();
    DeviceNormalize();
  }

  /** An attribute called anything but `name` does not reach the path:
      `<rule entry="foo">bar</rule>` below the path "x" gives "x rule bar". */
  lemma OtherAttributeIgnored()
    ensures Process(Node("rule", map["entry" := "foo"], [], Some("bar")), "x") == ["x rule bar"]
  {
    Emit(Node("rule", map["entry" := "foo"], [], Some("bar")), "x", "rule", "bar");
    assert "x" + " " + "rule" + " " + "bar" == "x rule bar";
  }

  /** `<flag name="enabled"/>` */
  function Flag(): Node { Node("flag", map["name" := "enabled"], [], None) }

  /** A text-less root leaf keeps its segment as is and renders Python's
      `None`. */
  lemma FlagRawCommand()
    ensures Process(Flag(), "") == ["flag" + " " + "enabled" + " " + "None"]
  {
    StripTrimmed("flag" + " " + "enabled" + " " + "None");
  }

  lemma FlagDropWrapper()
    ensures DropWrapper("flag" + " " + "enabled" + " " + "None") == "flag" + " " + "enabled" + " " + "None"
  {
    ShortNoMatch("flag" + " " + "enabled" + " " + "None", Wrapper);
  }

  lemma FlagDropEntry()
    ensures DropEntry("flag" + " " + "enabled" + " " + "None") == "flag" + " " + "enabled" + " " + "None"
  {
    var raw := "flag" + " " + "enabled" + " " + "None";
    MissingCharNoMatch(raw, EntryText, 't');
    ReplaceNoMatch(raw, EntryText, "");
  }

  lemma FlagNormalize()
    ensures Normalize("flag" + " " + "enabled" + " " + "None") == "set flag enabled None"
  {
    FlagDropWrapper();
    FlagDropEntry();
  }

  /** `<flag name="enabled"/>` as the root gives "set flag enabled None". */
  lemma MissingTextRendersNone()
    ensures Convert(Flag()) == ["set flag enabled None"]
  {
    FlagRawCommand();
    FlagNormalize();
  }

  /** The root's segment is used unstripped: an empty `name` leaves a
      trailing space on the segment, which survives as a double space. */
  lemma RootSegmentNotStripped()
    ensures Process(Node("a", map["name" := ""], [], Some("x")), "") == ["a  x"]
  {
    StripTrimmed("a" + " " + "" + " " + "x");
    assert "a" + " " + "" + " " + "x" == "a  x";
  }

  /** Stripping a string that ends in one space removes just that space. */
  lemma StripTrailingSpace(s: string)
    requires s != [] && Trimmed(s)
    ensures Strip(s + " ") == s
  {
    assert (s + " ")[..|s|] == s;
    StripTrimmed(s);
  }

  /** One level down the same segment is stripped, and the double space
      disappears. */
  lemma InnerSegmentStripped()
    ensures Process(Node("a", map["name" := ""], [], Some("x")), "r") == ["r a x"]
  {
    assert "r" + " " + ("a" + " " + "") == "r" + " " + "a" + " ";
    StripTrailingSpace("r" + " " + "a");
    StripTrimmed("r" + " " + "a" + " " + "x");
    assert "r" + " " + "a" + " " + "x" == "r a x";
  }

  /** An `entry` element without a `name` contributes " entry" to the raw
      command: `<a><entry><b>1</b></entry></a>` gives "a entry b 1". */
  lemma EntryRawCommand()
    ensures Process(Node("a", map[], [Node("entry", map[], [Node("b", map[], [], Some("1"))], None)], None), "")
         == ["a" + " " + "entry" + " " + "b" + " " + "1"]
  {
    var b := Node("b", map[], [], Some("1"));
    var e := Node("entry", map[], [b], None);
    Step(e, "a", "entry");
    Emit(b, "a" + " " + "entry", "b", "1");
  }

  lemma EntryRawDropEntry()
    ensures DropEntry("a" + " " + "entry" + " " + "b" + " " + "1") == "a" + (" " + "b" + " " + "1")
  {
    var raw := "a" + " " + "entry" + " " + "b" + " " + "1";
    assert OccursAt(raw, EntryText, 1) by { assert raw[1..][..6] == EntryText; }
    assert !OccursAt(raw, EntryText, 0) by { assert raw[0] != EntryText[0]; }
    ReplaceLeftmost(raw, EntryText, "", 1);
    var rest := " " + "b" + " " + "1";
    assert raw[1 + |EntryText|..] == rest;
    MissingCharNoMatch(rest, EntryText, 'y');
    ReplaceNoMatch(rest, EntryText, "");
  }

  lemma EntryRawNormalize()
    ensures Normalize("a" + " " + "entry" + " " + "b" + " " + "1") == "set a b 1"
  {
    ShortNoMatch("a" + " " + "entry" + " " + "b" + " " + "1", Wrapper);
    EntryRawDropEntry();
  }

  /** Every " entry" is deleted, including one contributed by an element
      named `entry`: `<a><entry><b>1</b></entry></a>` gives "set a b 1". */
  lemma EntryElementDropped()
    ensures Convert(Node("a", map[], [Node("entry", map[], [Node("b", map[], [], Some("1"))], None)], None))
         == ["set a b 1"]
  {
    EntryRawCommand();
    EntryRawNormalize();
  }

  /** A command in which deleting " entry" leaves " entry" behind. */
  function Nested(): string { " ent entryry" }

  /** In " ent entryry" the scan first finds " entry" at index 4. */
  lemma EntryFirstHit()
    ensures OccursAt(Nested(), EntryText, 4)
    ensures forall j :: 0 <= j < 4 ==> !OccursAt(Nested(), EntryText, j)
  {
    var s := Nested();
    assert s[4..][..6] == EntryText;
    assert s[4] != EntryText[4];
    assert s[1] != EntryText[0] && s[2] != EntryText[0] && s[3] != EntryText[0];
  }

  lemma NestedPieces()
    ensures Nested()[..4] == " ent" && Nested()[4 + |EntryText|..] == "ry"
  {
  }

  lemma TailUnchanged()
    ensures DropEntry("ry") == "ry"
  {
    MissingCharNoMatch("ry", EntryText, 'e');
    ReplaceNoMatch("ry", EntryText, "");
  }

  lemma EntryDeletionResult()
    ensures DropEntry(Nested()) == " entry"
  {
    EntryFirstHit();
    ReplaceLeftmost(Nested(), EntryText, "", 4);
    NestedPieces();
    TailUnchanged();
  }

  /** The " entry" deletion is a single scan, so it can create a new
      " entry" out of the pieces around a deleted one: " ent entryry"
      becomes " entry", which still contains the pattern. */
  lemma EntryDeletionNotIdempotent()
    ensures DropEntry(Nested()) == " entry"
    ensures Contains(DropEntry(Nested()), EntryText)
  {
    EntryDeletionResult();
    assert OccursAt(" entry", EntryText, 0);
  }

  /** A leading occurrence of the pattern is deleted and the scan goes on
      with the rest. */
  lemma ReplaceLeading(pat: string, t: string)
    requires pat != []
    ensures Replace(pat + t, pat, "") == Replace(t, pat, "")
  {
    var s := pat + t;
    assert OccursAt(s, pat, 0) by { assert s[0..] == s; }
    ReplaceLeftmost(s, pat, "", 0);
    assert s[|pat|..] == t;
  }

  /** Characters that cannot start the pattern are kept, and the scan goes
      on past them. */
  lemma {:induction false} ReplaceAfterPrefix(u: string, pat: string, t: string)
    requires pat != [] && forall j :: 0 <= j < |u| ==> u[j] != pat[0]
    ensures Replace(u + pat + t, pat, "") == u + Replace(t, pat, "")
    decreases |u|
  {
    var s := u + pat + t;
    if u == [] {
      assert s == pat + t;
      ReplaceLeading(pat, t);
    } else {
      assert s[0] == u[0];
      ReplaceSkip(s, pat, "");
      assert s[1..] == u[1..] + pat + t;
      ReplaceAfterPrefix(u[1..], pat, t);
      assert [u[0]] + u[1..] == u;
    }
  }

  lemma PrefixCannotStartWrapper()
    ensures forall j :: 0 <= j < |"a "| ==> "a "[j] != Wrapper[0]
  {
    assert Wrapper[0] == 'c';
  }

  lemma TwoWrappersRaw()
    ensures DropWrapper(Wrapper + ("a " + Wrapper + "b")) == "a " + "b"
  {
    var s := Wrapper + ("a " + Wrapper + "b");
    assert OccursAt(s, Wrapper, 0) by { assert s[0..] == s; }
    ReplaceLeading(Wrapper, "a " + Wrapper + "b");
    PrefixCannotStartWrapper();
    ReplaceAfterPrefix("a ", Wrapper, "b");
    ShortNoMatch("b", Wrapper);
    ReplaceNoMatch("b", Wrapper, "");
  }

  /** `str.replace` deletes every occurrence of the wrapper, not only the
      first: two copies around "a " and "b" leave "a b". */
  lemma WrapperDeletedEverywhere()
    ensures DropWrapper(Wrapper + "a " + Wrapper + "b") == "a b"
  {
    TwoWrappersRaw();
    assert Wrapper + "a " + Wrapper + "b" == Wrapper + ("a " + Wrapper + "b");
  }
}
