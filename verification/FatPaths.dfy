/**
 * Path strings: how the text of a destination is cut into the directory that receives the entry
 * and the name of the entry, and when this undoes writing a path as text.
 */
module FatPaths {
  import opened Bytes
  import opened Options
  import opened FatNames
  import opened FatFilesystem
  import opened FatClusters
  import opened FatWriter

  const SLASH: byte := 47

  type Text = seq<byte>

  predicate HasSlash(text: Text) {
    0x2F in text
  }

  /** The position of the first slash, or the length when there is none. */
  function SlashIndex(text: Text): (i: nat)
    ensures i <= |text| && (i < |text| <==> HasSlash(text))
    ensures i < |text| ==> text[i] == SLASH
    ensures forall j :: 0 <= j < i ==> text[j] != SLASH
  {
    if text == [] then 0 else if text[0] == SLASH then 0 else 1 + SlashIndex(text[1..])
  }

  /** The position of the last slash. */
  function LastSlash(text: Text): (i: Option<nat>)
    ensures i.Some? <==> HasSlash(text)
    ensures i.Some? ==> i.value < |text| && text[i.value] == SLASH && !HasSlash(text[i.value + 1..])
  {
    if text == [] then None
    else if text[|text| - 1] == SLASH then Some(|text| - 1)
    else
      assert text == text[..|text| - 1] + [text[|text| - 1]];
      var i := LastSlash(text[..|text| - 1]);
      assert i.Some? ==> text[i.value + 1..] == text[..|text| - 1][i.value + 1..] + [text[|text| - 1]];
      i
  }

  /** The components between slashes; a text with n slashes has n + 1 of them. */
  function Split(text: Text): (parts: seq<Name>)
    ensures parts != []
    decreases |text|
  {
    var i := SlashIndex(text);
    if i == |text| then [text] else [text[..i]] + Split(text[i + 1..])
  }

  /** The directory a text names: the empty text is the root. */
  function DirectoryPath(text: Text): Path {
    if text == [] then [] else Split(text)
  }

  datatype Destination = Destination(parent: Path, name: Name)

  /**
   * The parent and the name in a destination. The first character is dropped without a look; a
   * text without a slash is its own name; the empty text raises an error.
   */
  function Parse(text: Text): Option<Destination> {
    if text == [] then None
    else
      var last := LastSlash(text);
      if last == None then Some(Destination(DirectoryPath(text[1..]), text))
      else if last == Some(0) then Some(Destination([], text[1..]))
      else Some(Destination(DirectoryPath(text[1..last.value]), text[last.value + 1..]))
  }

  function Join(path: Path): Text
    decreases |path|
  {
    if path == [] then [] else if |path| == 1 then path[0] else path[0] + [0x2F] + Join(path[1..])
  }

  /** The absolute path as text. */
  function Render(path: Path): Text {
    [0x2F] + Join(path)
  }

  predicate NoSlashes(path: Path) {
    forall i :: 0 <= i < |path| ==> !HasSlash(path[i])
  }

  lemma SplitStep(text: Text)
    ensures var i := SlashIndex(text);
      Split(text) == if i == |text| then [text[..i]] else [text[..i]] + Split(text[i + 1..])
  {
    hide SlashIndex;
    assert text[..|text|] == text;
  }

  lemma JoinStep(head: Name, rest: Path)
    ensures Join([head]) == head
    ensures rest != [] ==> Join([head] + rest) == head + [SLASH] + Join(rest)
  {
    assert ([head] + rest)[1..] == rest;
  }

  // ---------------------------------------------------------------- splitting undoes joining

  lemma SlashAfter(head: Name, rest: Text)
    requires !HasSlash(head)
    ensures SlashIndex(head + [SLASH] + rest) == |head|
  {
    var whole := head + [SLASH] + rest;
    assert whole[|head|] == SLASH;
    assert forall j :: 0 <= j < |head| ==> whole[j] == head[j] && head[j] in head;
    assert HasSlash(whole);
  }

  lemma {:induction false} SplitOfJoin(path: Path)
    requires path != [] && NoSlashes(path)
    ensures Split(Join(path)) == path
    decreases |path|
  {
    if |path| == 1 {
      assert !HasSlash(path[0]);
      assert path == [path[0]];
    } else {
      var rest := Join(path[1..]);
      SlashAfter(path[0], rest);
      var whole := path[0] + [SLASH] + rest;
      assert whole[..|path[0]|] == path[0] && whole[|path[0]| + 1..] == rest;
      SplitOfJoin(path[1..]);
    }
  }

  lemma {:induction false} SplitHasNoSlashes(text: Text)
    ensures NoSlashes(Split(text))
    decreases |text|
  {
    var i := SlashIndex(text);
    if i < |text| {
      SplitHasNoSlashes(text[i + 1..]);
      forall k | 0 <= k < |Split(text)|
        ensures !HasSlash(Split(text)[k])
      {
        if k > 0 {
          assert Split(text)[k] == Split(text[i + 1..])[k - 1];
        }
      }
    }
  }

  lemma {:induction false} JoinFront(path: Path)
    requires |path| >= 2
    ensures Join(path) == Join(Front(path)) + [SLASH] + Last(path)
    decreases |path|
  {
    if |path| > 2 {
      JoinFront(path[1..]);
      assert Front(path)[1..] == Front(path[1..]);
    }
  }

  lemma {:induction false} JoinIsEmpty(path: Path)
    requires path != []
    ensures Join(path) == [] <==> path == [[]]
  {
  }

  lemma {:induction false} LastSlashIs(front: Text, name: Name)
    requires !HasSlash(name)
    ensures LastSlash(front + [SLASH] + name) == Some(|front|)
    decreases |name|
  {
    var whole := front + [SLASH] + name;
    if name == [] {
      assert whole[|whole| - 1] == SLASH;
    } else {
      var shorter := name[..|name| - 1];
      assert whole[|whole| - 1] == name[|name| - 1] && name[|name| - 1] in name;
      assert whole[..|whole| - 1] == front + [SLASH] + shorter;
      LastSlashIs(front, shorter);
    }
  }

  lemma ParsedHasNoSlashes(text: Text)
    ensures Parse(text).Some? ==> NoSlashes(Parse(text).value.parent + [Parse(text).value.name])
  {
    if text != [] {
      var last := LastSlash(text);
      SplitHasNoSlashes(text[1..]);
      if last.Some? && last.value > 0 {
        SplitHasNoSlashes(text[1..last.value]);
      }
      if last == Some(0) {
        assert !HasSlash(text[1..]);
      }
    }
  }

  lemma ParseNested(middle: Text, name: Name)
    requires !HasSlash(name)
    ensures Parse([SLASH] + middle + [SLASH] + name) == Some(Destination(DirectoryPath(middle), name))
  {
    hide Split;
    var front := [SLASH] + middle;
    var text := front + [SLASH] + name;
    LastSlashIs(front, name);
    assert text[1..|front|] == middle && text[|front| + 1..] == name;
  }

  lemma ParseInRoot(name: Name)
    requires !HasSlash(name)
    ensures Parse([SLASH] + name) == Some(Destination([], name))
  {
    LastSlashIs([], name);
    assert [SLASH] + name == [] + [SLASH] + name;
  }

  lemma NoSlashesParts(path: Path)
    requires path != []
    ensures NoSlashes(path) <==> (NoSlashes(Front(path)) && !HasSlash(Last(path)))
    ensures path == Front(path) + [Last(path)]
  {
    if NoSlashes(Front(path)) && !HasSlash(Last(path)) {
      assert forall i :: 0 <= i < |path| - 1 ==> path[i] == Front(path)[i];
    }
    if NoSlashes(path) {
      assert forall i :: 0 <= i < |path| - 1 ==> path[i] == Front(path)[i];
    }
  }

  /**
   * A path written as text is parsed back exactly when no component contains a slash and the
   * parent is not the single empty name, which is taken for the root.
   */
  lemma ParseOfRender(path: Path)
    requires path != []
    ensures Parse(Render(path)) == Some(Destination(Front(path), Last(path)))
       <==> NoSlashes(path) && Front(path) != [[]]
  {
    hide Parse, NoSlashes, Split, Join;
    NoSlashesParts(path);
    ParsedHasNoSlashes(Render(path));
    JoinStep(path[0], []);
    assert [path[0]] == path[..1];
    if NoSlashes(path) {
      if |path| == 1 {
        ParseInRoot(path[0]);
      } else {
        JoinFront(path);
        assert Render(path) == [SLASH] + Join(Front(path)) + [SLASH] + Last(path);
        ParseNested(Join(Front(path)), Last(path));
        JoinIsEmpty(Front(path));
        SplitOfJoin(Front(path));
      }
    }
  }

  // ---------------------------------------------------------------- texts that are written as paths

  /** Joining undoes splitting, for every text. */
  lemma {:induction false} JoinOfSplit(text: Text)
    ensures Join(Split(text)) == text
    decreases |text|
  {
    hide Split, Join;
    var i := SlashIndex(text);
    SplitStep(text);
    if i < |text| {
      JoinOfSplit(text[i + 1..]);
      JoinStep(text[..i], Split(text[i + 1..]));
      assert text == text[..i] + [SLASH] + text[i + 1..];
    } else {
      JoinStep(text, []);
      assert text[..i] == text;
    }
  }

  /** A text below the root: a slash, the parent's text, a slash, the name. */
  lemma NestedText(text: Text)
    requires text != [] && LastSlash(text).Some? && LastSlash(text).value > 0
    ensures var last := LastSlash(text).value; var middle, name := text[1..last], text[last + 1..];
      text == [text[0]] + middle + [SLASH] + name
  {
    hide LastSlash;
  }

  lemma RenderNested(middle: Text, name: Name)
    requires middle != []
    ensures Render(Split(middle) + [name]) == [SLASH] + middle + [SLASH] + name
  {
    hide Split, Join;
    var path := Split(middle) + [name];
    assert Front(path) == Split(middle) && Last(path) == name;
    JoinFront(path);
    JoinOfSplit(middle);
    assert [SLASH] + (middle + [SLASH] + name) == [SLASH] + middle + [SLASH] + name;
  }

  /**
   * Writing what was parsed gives the text back exactly when it begins with a slash and its last
   * slash is not the second character.
   */
  lemma RenderOfParse(text: Text)
    requires text != []
    ensures Parse(text).Some?
    ensures var d := Parse(text).value;
      Render(d.parent + [d.name]) == text <==> text[0] == 0x2F && LastSlash(text) != Some(1)
  {
    hide Split, LastSlash;
    var d, last := Parse(text).value, LastSlash(text);
    if last.Some? && last.value > 0 {
      var middle := text[1..last.value];
      NestedText(text);
      if middle == [] {
        assert d.parent + [d.name] == [d.name];
        assert |Render([d.name])| < |text|;
      } else {
        RenderNested(middle, d.name);
        assert Render(d.parent + [d.name])[0] == SLASH;
      }
    } else if last == Some(0) {
      assert [] + [d.name] == [d.name];
      assert text == [text[0]] + text[1..];
    } else {
      assert Render(d.parent + [d.name])[0] == SLASH;
      assert text[0] in text;
    }
  }
}
