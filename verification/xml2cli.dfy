/**
 The tree-to-command transform of `parse_xml_to_cli`: path segments from
 tag and `name` attribute, a depth-first walk that emits one raw command per
 leaf element, and the post-processing that drops the device wrapper text,
 drops every " entry" and prefixes "set ".
 */
module Xml2Cli {
  import opened PyStr
  import opened XmlTree

  /** The fixed wrapper text that every command of a single-device export
      starts with. */
  const Wrapper: string := "config devices entry localhost.localdomain "
  /** The list-member wrapper text removed from every command. */
  const EntryText: string := " entry"
  const SetPrefix: string := "set "

  // ---------------------------------------------------------------------
  // Traversal
  // ---------------------------------------------------------------------

  /** The path segment of an element: its tag, followed by its `name`
      attribute when it has one. */
  function PathSegment(tag: string, attrib: map<string, string>): string {
    if "name" in attrib then tag + " " + attrib["name"] else tag
  }

  /** The path of a child: the root call starts from the empty path and takes
      its segment as is; every deeper call joins with a space and strips. */
  function ExtendPath(path: string, segment: string): string {
    if path == [] then segment else Strip(path + " " + segment)
  }

  /** How an f-string renders `element.text`: Python's `None` prints as the
      four characters "None". */
  function RenderText(text: Option<string>): string {
    match text
    case None => "None"
    case Some(t) => t
  }

  /** The command a leaf element with path `path` and text `text` emits. */
  function LeafCommand(path: string, text: Option<string>): string {
    Strip(path + " " + RenderText(text))
  }

  /** `process_element(n, path)`: the raw commands of the subtree `n`, one
      per leaf, each stripped of surrounding whitespace. */
  function Process(n: Node, path: string): (cmds: seq<string>)
    ensures |cmds| == LeafCount(n)
    decreases n
  {
    var newPath := ExtendPath(path, PathSegment(n.tag, n.attrib));
    if n.IsLeaf() then [LeafCommand(newPath, n.text)]
    else ProcessAll(n.children, newPath)
  }

  /** The loop over the children of one element, in document order. */
  function ProcessAll(cs: seq<Node>, path: string): (cmds: seq<string>)
    ensures |cmds| == LeafCountAll(cs)
    decreases cs
  {
    if cs == [] then []
    else
      Process(cs[0], path) + ProcessAll(cs[1..], path)
  }

  // ---------------------------------------------------------------------
  // Post-processing
  // ---------------------------------------------------------------------

  /** The wrapper step: behind the `unwanted_prefix in cmd` guard, every
      occurrence of the wrapper is deleted in one `str.replace` pass. */
  function DropWrapper(cmd: string): string {
    if Contains(cmd, Wrapper) then Replace(cmd, Wrapper, "") else cmd
  }

  /** `cmd.replace(" entry", "")`: every occurrence of " entry" found by one
      left-to-right scan is deleted. */
  function DropEntry(cmd: string): string {
    Replace(cmd, EntryText, "")
  }

  /** The final form of one raw command. */
  function Normalize(cmd: string): (r: string)
    ensures SetPrefix <= r
  {
    SetPrefix + DropEntry(DropWrapper(cmd))
  }

  /** `parse_xml_to_cli` from the parsed root on: the final commands, one per
      leaf element, each starting with "set ". */
  function Convert(root: Node): (out: seq<string>)
    ensures |out| == LeafCount(root)
    ensures forall i :: 0 <= i < |out| ==> SetPrefix <= out[i]
  {
    var raw := Process(root, "");
    seq(|raw|, i requires 0 <= i < |raw| => Normalize(raw[i]))
  }

  /** The filtering loop over `cli_commands` followed by the "set "
      comprehension, statement by statement. The output is one-to-one with
      the input and in the same order. */
  method Postprocess(raw: seq<string>) returns (final: seq<string>)
    ensures |final| == |raw|
    ensures forall i :: 0 <= i < |raw| ==>
      final[i] == SetPrefix + DropEntry(DropWrapper(raw[i]))
  {
    var filtered: seq<string> := [];
    var k := 0;
    while k < |raw|
      invariant 0 <= k <= |raw|
      invariant |filtered| == k
      invariant forall i :: 0 <= i < k ==> filtered[i] == DropEntry(DropWrapper(raw[i]))
    {
      var cmd := raw[k];
      if Contains(cmd, Wrapper) {
        cmd := Replace(cmd, Wrapper, "");
      }
      cmd := Replace(cmd, EntryText, "");
      filtered := filtered + [cmd];
      k := k + 1;
    }
    final := seq(|filtered|, i requires 0 <= i < |filtered| => SetPrefix + filtered[i]);
  }

  /** `process_element` as written: every leaf appends its command to the
      shared list `cli_commands`, here threaded through the walk as `acc`. */
  function ProcessInto(acc: seq<string>, n: Node, path: string): seq<string>
    decreases n
  {
    var newPath := ExtendPath(path, PathSegment(n.tag, n.attrib));
    if n.IsLeaf() then acc + [LeafCommand(newPath, n.text)]
    else ProcessAllInto(acc, n.children, newPath)
  }

  /** The loop over the element's children, each appending in turn. */
  function ProcessAllInto(acc: seq<string>, cs: seq<Node>, path: string): seq<string>
    decreases cs
  {
    if cs == [] then acc
    else ProcessAllInto(ProcessInto(acc, cs[0], path), cs[1..], path)
  }

  /** Appending to the shared list during the walk leaves the list it started
      with untouched and adds exactly the commands `Process` returns, in
      order. */
  lemma {:induction false} ProcessIntoAppends(acc: seq<string>, n: Node, path: string)
    ensures ProcessInto(acc, n, path) == acc + Process(n, path)
    decreases n
  {
    var newPath := ExtendPath(path, PathSegment(n.tag, n.attrib));
    if !n.IsLeaf() {
      ProcessAllIntoAppends(acc, n.children, newPath);
    }
  }

  lemma {:induction false} ProcessAllIntoAppends(acc: seq<string>, cs: seq<Node>, path: string)
    ensures ProcessAllInto(acc, cs, path) == acc + ProcessAll(cs, path)
    decreases cs
  {
    if cs != [] {
      var mid := ProcessInto(acc, cs[0], path);
      ProcessIntoAppends(acc, cs[0], path);
      ProcessAllIntoAppends(mid, cs[1..], path);
      assert (acc + Process(cs[0], path)) + ProcessAll(cs[1..], path)
          == acc + (Process(cs[0], path) + ProcessAll(cs[1..], path));
    }
  }

  /** The whole conversion as written: the walk appending to an initially
      empty `cli_commands`, then the post-processing loop. It produces exactly
      `Convert(root)`. */
  method ParseXmlToCli(root: Node) returns (commands: seq<string>)
    ensures commands == Convert(root)
  {
    var cliCommands := ProcessInto([], root, "");
    ProcessIntoAppends([], root, "");
    assert [] + Process(root, "") == Process(root, "");
    commands := Postprocess(cliCommands);
  }

  // ---------------------------------------------------------------------
  // Properties
  // ---------------------------------------------------------------------

  /** The `unwanted_prefix in cmd` guard is redundant: the wrapper step is a plain
      deletion of every occurrence, the identity exactly on commands without
      the wrapper, and otherwise at least one whole wrapper shorter. */
  lemma DropWrapperSpec(cmd: string)
    ensures DropWrapper(cmd) == Replace(cmd, Wrapper, "")
    ensures DropWrapper(cmd) == cmd <==> !Contains(cmd, Wrapper)
    ensures Contains(cmd, Wrapper) ==> |DropWrapper(cmd)| <= |cmd| - |Wrapper|
  {
    RemoveIdentityIff(cmd, Wrapper);
    RemoveShrinks(cmd, Wrapper);
  }

  /** The " entry" step never lengthens a command, and it is the identity
      exactly on commands that do not contain " entry". */
  lemma DropEntrySpec(cmd: string)
    ensures |DropEntry(cmd)| <= |cmd|
    ensures DropEntry(cmd) == cmd <==> !Contains(cmd, EntryText)
    ensures Contains(cmd, EntryText) ==> |DropEntry(cmd)| <= |cmd| - |EntryText|
  {
    RemoveIdentityIff(cmd, EntryText);
    RemoveShrinks(cmd, EntryText);
  }

  function NameOf(attrib: map<string, string>): Option<string> {
    if "name" in attrib then Some(attrib["name"]) else None
  }

  /** A segment is the tag, then " " and the `name` value when there is one;
      attributes other than `name` never matter. */
  lemma SegmentOnlyReadsName(tag: string, a: map<string, string>, b: map<string, string>)
    requires NameOf(a) == NameOf(b)
    ensures PathSegment(tag, a) == PathSegment(tag, b)
    ensures PathSegment(tag, a) == tag + (if "name" in a then " " + a["name"] else "")
  {
  }

  /** Two trees the conversion cannot tell apart: same tags, same `name`
      attributes, same shape, same leaf texts. Other attributes and the text
      of elements that have children may differ. */
  predicate SameView(n: Node, m: Node)
    decreases n
  {
    && n.tag == m.tag
    && NameOf(n.attrib) == NameOf(m.attrib)
    && |n.children| == |m.children|
    && (forall i :: 0 <= i < |n.children| ==> SameView(n.children[i], m.children[i]))
    && (n.IsLeaf() ==> n.text == m.text)
  }

  /** The raw commands depend only on what `SameView` compares. */
  lemma {:induction false} ProcessReadsOnlyView(n: Node, m: Node, path: string)
    requires SameView(n, m)
    ensures Process(n, path) == Process(m, path)
    decreases n
  {
    SegmentOnlyReadsName(n.tag, n.attrib, m.attrib);
    if !n.IsLeaf() {
      ProcessAllReadsOnlyView(n.children, m.children, ExtendPath(path, PathSegment(n.tag, n.attrib)));
    }
  }

  lemma {:induction false} ProcessAllReadsOnlyView(cs: seq<Node>, ds: seq<Node>, path: string)
    requires |cs| == |ds|
    requires forall i :: 0 <= i < |cs| ==> SameView(cs[i], ds[i])
    ensures ProcessAll(cs, path) == ProcessAll(ds, path)
    decreases cs
  {
    if cs != [] {
      ProcessReadsOnlyView(cs[0], ds[0], path);
      ProcessAllReadsOnlyView(cs[1..], ds[1..], path);
    }
  }

  lemma {:induction false} SameViewRefl(n: Node)
    ensures SameView(n, n)
    decreases n
  {
    forall i | 0 <= i < |n.children| ensures SameView(n.children[i], n.children[i]) {
      SameViewRefl(n.children[i]);
    }
  }

  /** The root's path is its segment untouched; every deeper path is the
      joined text with its leading and trailing whitespace runs cut off. */
  lemma ExtendPathSpec(path: string, segment: string)
    ensures path == [] ==> ExtendPath(path, segment) == segment
    ensures path != [] ==> Trimmed(ExtendPath(path, segment))
    ensures path != [] ==> IsStripOf(path + " " + segment, ExtendPath(path, segment))
  {
    if path != [] {
      StripSpec(path + " " + segment);
    }
  }

  /** A leaf command ends with the rendered text whenever that text holds no
      whitespace: the stripping never reaches into it. */
  lemma LeafCommandEndsWithText(path: string, text: Option<string>)
    requires forall k :: 0 <= k < |RenderText(text)| ==> !IsWs(RenderText(text)[k])
    ensures EndsWith(LeafCommand(path, text), RenderText(text))
  {
    StripKeepsSolidTail(path + " ", RenderText(text));
    assert path + " " + RenderText(text) == (path + " ") + RenderText(text);
  }

  /** Whatever the path, a leaf without text emits one command, and it ends
      with Python's rendering of `None`. */
  lemma MissingTextEndsInNone(n: Node, path: string)
    requires n.IsLeaf() && n.text.None?
    ensures |Process(n, path)| == 1 && EndsWith(Process(n, path)[0], "None")
  {
    LeafCommandEndsWithText(ExtendPath(path, PathSegment(n.tag, n.attrib)), n.text);
  }

  /** Whatever the path, a leaf whose text holds no whitespace emits one
      command, and it ends with that text. */
  lemma SolidTextEndsCommand(n: Node, path: string)
    requires n.IsLeaf() && n.text.Some?
    requires forall k :: 0 <= k < |n.text.value| ==> !IsWs(n.text.value[k])
    ensures |Process(n, path)| == 1 && EndsWith(Process(n, path)[0], n.text.value)
  {
    LeafCommandEndsWithText(ExtendPath(path, PathSegment(n.tag, n.attrib)), n.text);
  }

  /** The text of an element that has children never reaches a command. */
  lemma InnerTextIgnored(n: Node, t: Option<string>, path: string)
    requires !n.IsLeaf()
    ensures Process(n.(text := t), path) == Process(n, path)
  {
    SameViewRefl(n);
    ProcessReadsOnlyView(n.(text := t), n, path);
  }

  /** The path reached by walking down a chain of elements from `path`. */
  function PathAlong(path: string, ch: seq<Node>): string
    decreases ch
  {
    if ch == [] then path
    else PathAlong(ExtendPath(path, PathSegment(ch[0].tag, ch[0].attrib)), ch[1..])
  }

  /** The command of the leaf a chain ends in. */
  function ChainCommand(path: string, ch: seq<Node>): string
    requires ch != []
  {
    LeafCommand(PathAlong(path, ch), ch[|ch| - 1].text)
  }

  /** The i-th raw command is the command of the i-th root-to-leaf chain in
      depth-first order: one command per leaf, leaves in document order, each
      carrying the path of every element above it. */
  lemma {:induction false} ProcessByChains(n: Node, path: string)
    ensures |Process(n, path)| == |Chains(n)|
    ensures forall i :: 0 <= i < |Chains(n)| ==>
      Chains(n)[i] != [] && Process(n, path)[i] == ChainCommand(path, Chains(n)[i])
    decreases n
  {
    var newPath := ExtendPath(path, PathSegment(n.tag, n.attrib));
    if n.IsLeaf() {
      LeafChain(n, path);
    } else {
      ProcessAllByChains(n.children, newPath);
      var chs := ChainsAll(n.children);
      assert Process(n, path) == ProcessAll(n.children, newPath);
      forall i | 0 <= i < |Chains(n)|
        ensures Chains(n)[i] != [] && Process(n, path)[i] == ChainCommand(path, Chains(n)[i])
      {
        assert Chains(n)[i] == [n] + chs[i];
        ChainCommandCons(path, n, chs[i]);
      }
    }
  }

  lemma LeafChain(n: Node, path: string)
    requires n.IsLeaf()
    ensures Process(n, path) == [ChainCommand(path, [n])]
  {
    var newPath := ExtendPath(path, PathSegment(n.tag, n.attrib));
    assert [n][1..] == [];
    assert PathAlong(path, [n]) == PathAlong(newPath, []) == newPath;
  }

  lemma ChainCommandCons(path: string, n: Node, ch: seq<Node>)
    requires ch != []
    ensures ChainCommand(path, [n] + ch)
         == ChainCommand(ExtendPath(path, PathSegment(n.tag, n.attrib)), ch)
  {
    assert ([n] + ch)[1..] == ch;
  }

  lemma {:induction false} ProcessAllByChains(cs: seq<Node>, path: string)
    ensures |ProcessAll(cs, path)| == |ChainsAll(cs)|
    ensures forall i :: 0 <= i < |ChainsAll(cs)| ==>
      ChainsAll(cs)[i] != [] && ProcessAll(cs, path)[i] == ChainCommand(path, ChainsAll(cs)[i])
    decreases cs
  {
    if cs != [] {
      ProcessByChains(cs[0], path);
      ProcessAllByChains(cs[1..], path);
      var a, b := Chains(cs[0]), ChainsAll(cs[1..]);
      var p, q := Process(cs[0], path), ProcessAll(cs[1..], path);
      forall i | 0 <= i < |a + b|
        ensures (a + b)[i] != [] && (p + q)[i] == ChainCommand(path, (a + b)[i])
      {
        if i >= |a| { assert (a + b)[i] == b[i - |a|] && (p + q)[i] == q[i - |a|]; }
      }
    }
  }

  /** Every raw command is stripped: it neither starts nor ends with
      whitespace. */
  lemma ProcessTrimmed(n: Node, path: string)
    ensures forall i :: 0 <= i < |Process(n, path)| ==> Trimmed(Process(n, path)[i])
  {
    ProcessByChains(n, path);
    var chs := Chains(n);
    forall i | 0 <= i < |Process(n, path)| ensures Trimmed(Process(n, path)[i]) {
      var ch := chs[i];
      StripSpec(PathAlong(path, ch) + " " + RenderText(ch[|ch| - 1].text));
    }
  }

  /** End to end: the i-th final command is the normalized command of the
      i-th leaf in depth-first order. */
  lemma ConvertByChains(root: Node)
    ensures |Convert(root)| == |Chains(root)|
    ensures forall i :: 0 <= i < |Chains(root)| ==>
      Chains(root)[i] != [] && Convert(root)[i] == Normalize(ChainCommand("", Chains(root)[i]))
  {
    ProcessByChains(root, "");
  }
}
