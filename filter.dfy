/**
 The pandoc filter's environment. For a code block it picks the interpreter
 tag from the block's classes, creates the interpreter for that tag at most
 once, and rewrites the block into itself followed by a new code block that
 holds the interpreter's output.

 Interpreters are named by the id they were created with; creating one hands
 out the next id. What an interpreter answers for a piece of code is the
 parameter `communicate`.
 */
module Filter {
  import opened InterpreterProcess

  datatype Option<T> = None | Some(value: T)

  /** A pandoc `Attr`: identifier, classes and key-value pairs. */
  datatype Attr = Attr(ident: string, classes: seq<string>, keyvals: seq<(string, string)>)

  /** A code block as `pdf.CodeBlock(attr, code)` builds it. */
  datatype Block = CodeBlock(attr: Attr, code: string)

  /** The `value` pandoc passes along with an element's key: for a code block, its attributes and code. */
  datatype Value = CodeBlockValue(attr: Attr, code: string) | OtherValue

  /** How an interpreter for a tag is started: its command line and its echo command. */
  datatype Factory = Factory(exec: string, echo: EchoTemplate)

  /** `INTERPRETERS`: the tags a code block may carry, each with how to start its interpreter. */
  const Interpreters: map<string, Factory> := map["python" := Factory("python -qi", PythonEcho)]

  /**
   `[i for i in classes if i in INTERPRETERS]`: the known classes. That they
   keep the block's order is `KnownClassesAppend`.
   */
  function KnownClasses(classes: seq<string>): (known: seq<string>)
    ensures |known| <= |classes|
    ensures forall t :: t in known <==> t in classes && t in Interpreters
  {
    if classes == [] then []
    else (if classes[0] in Interpreters then [classes[0]] else []) + KnownClasses(classes[1..])
  }

  /** Filtering a split list is filtering each part: the known classes come in the block's order. */
  lemma {:induction false} KnownClassesAppend(a: seq<string>, b: seq<string>)
    ensures KnownClasses(a + b) == KnownClasses(a) + KnownClasses(b)
    decreases |a|
  {
    if a == [] {
      assert a + b == b;
    } else {
      assert (a + b)[0] == a[0];
      assert (a + b)[1..] == a[1..] + b;
      KnownClassesAppend(a[1..], b);
    }
  }

  /** The first known class is the first class, in the block's order, that is known. */
  lemma {:induction false} FirstKnownClass(classes: seq<string>)
    requires KnownClasses(classes) != []
    ensures exists i :: && 0 <= i < |classes|
                        && classes[i] == KnownClasses(classes)[0]
                        && forall j :: 0 <= j < i ==> classes[j] !in Interpreters
  {
    if classes[0] !in Interpreters {
      assert KnownClasses(classes) == KnownClasses(classes[1..]);
      FirstKnownClass(classes[1..]);
      var i :| && 0 <= i < |classes[1..]|
               && classes[1..][i] == KnownClasses(classes[1..])[0]
               && forall j :: 0 <= j < i ==> classes[1..][j] !in Interpreters;
      assert classes[i + 1] == KnownClasses(classes)[0];
      forall j | 0 <= j < i + 1
        ensures classes[j] !in Interpreters
      {
        if j > 0 {
          assert classes[j] == classes[1..][j - 1];
        }
      }
    } else {
      assert classes[0] == KnownClasses(classes)[0];
    }
  }

  /**
   The tag `convert` picks for a block: none when no class is known, otherwise
   the first known class in the block's order.
   */
  function SelectTag(classes: seq<string>): (tag: Option<string>)
    ensures tag.None? <==> forall i :: 0 <= i < |classes| ==> classes[i] !in Interpreters
    ensures tag.Some? ==> tag.value in Interpreters
    ensures tag.Some? ==> exists i :: && 0 <= i < |classes|
                                      && classes[i] == tag.value
                                      && forall j :: 0 <= j < i ==> classes[j] !in Interpreters
  {
    var known := KnownClasses(classes);
    if |known| == 0 then None
    else
      FirstKnownClass(classes);
      assert known[0] in known;
      Some(known[0])
  }

  /** `self.interpreters`, each interpreter named by its id, and the number of interpreters created so far. */
  datatype Registry = Registry(interpreters: map<string, nat>, created: nat)

  /** One interpreter per created id: ids are those handed out so far, and no two tags share one. */
  predicate ValidRegistry(reg: Registry) {
    && |reg.interpreters| == reg.created
    && (forall t :: t in reg.interpreters ==> reg.interpreters[t] < reg.created)
    && (forall t, u :: t in reg.interpreters && u in reg.interpreters && t != u ==>
                         reg.interpreters[t] != reg.interpreters[u])
  }

  /** The lookup in `convert`: the tag's interpreter, created under the next id when the tag has none. */
  function Lookup(reg: Registry, tag: string): (r: (Registry, nat))
    ensures tag in r.0.interpreters && r.0.interpreters[tag] == r.1
  {
    if tag in reg.interpreters then (reg, reg.interpreters[tag])
    else (Registry(reg.interpreters[tag := reg.created], reg.created + 1), reg.created)
  }

  /**
   A tag already registered keeps its interpreter and nothing is created; a
   missing tag gets one new interpreter whose id no other tag has. Other tags
   keep their interpreters either way, and the registry stays valid.
   */
  lemma LookupSpec(reg: Registry, tag: string)
    requires ValidRegistry(reg)
    ensures var r := Lookup(reg, tag);
            && ValidRegistry(r.0)
            && r.0.interpreters.Keys == reg.interpreters.Keys + {tag}
            && (tag in reg.interpreters ==> r.0 == reg)
            && (forall t :: t in reg.interpreters ==> r.0.interpreters[t] == reg.interpreters[t])
            && (tag !in reg.interpreters ==> && r.0.created == reg.created + 1
                                             && forall t :: t in reg.interpreters ==> reg.interpreters[t] != r.1)
  {
    if tag !in reg.interpreters {
      var m := reg.interpreters[tag := reg.created];
      assert m.Keys == reg.interpreters.Keys + {tag};
    }
  }

  /** The lookups of a run of code blocks whose tags are `tags`, in order. */
  function LookupAll(reg: Registry, tags: seq<string>): (r: (Registry, seq<nat>))
    ensures |r.1| == |tags|
    decreases |tags|
  {
    if tags == [] then (reg, [])
    else
      var first := Lookup(reg, tags[0]);
      var rest := LookupAll(first.0, tags[1..]);
      (rest.0, [first.1] + rest.1)
  }

  /** The tags of a run, as a set: the first one and those of the rest. */
  lemma TagSetCons(tags: seq<string>)
    requires tags != []
    ensures (set t | t in tags) == {tags[0]} + (set t | t in tags[1..])
  {
    forall t | t in tags
      ensures t == tags[0] || t in tags[1..]
    {
      var k :| 0 <= k < |tags| && tags[k] == t;
      if k > 0 {
        assert tags[1..][k - 1] == t;
      }
    }
  }

  /**
   Over any run of lookups, every tag seen is registered, tags registered
   before keep their interpreters, and each lookup is answered by the
   interpreter the tag has at the end: a tag's interpreter never changes.
   */
  lemma {:induction false} LookupAllKeeps(reg: Registry, tags: seq<string>)
    ensures var r := LookupAll(reg, tags);
            && r.0.interpreters.Keys == reg.interpreters.Keys + (set t | t in tags)
            && (forall t :: t in reg.interpreters ==> r.0.interpreters[t] == reg.interpreters[t])
            && (forall i :: 0 <= i < |tags| ==> tags[i] in r.0.interpreters && r.1[i] == r.0.interpreters[tags[i]])
    decreases |tags|
  {
    if tags != [] {
      var first := Lookup(reg, tags[0]);
      var rest := LookupAll(first.0, tags[1..]);
      LookupAllKeeps(first.0, tags[1..]);
      TagSetCons(tags);
      assert first.0.interpreters.Keys == reg.interpreters.Keys + {tags[0]};
      assert LookupAll(reg, tags) == (rest.0, [first.1] + rest.1);
      forall i | 0 <= i < |tags|
        ensures ([first.1] + rest.1)[i] == rest.0.interpreters[tags[i]]
      {
        if i > 0 {
          assert tags[i] == tags[1..][i - 1];
        }
      }
    }
  }

  /** Over any run of lookups the registry stays valid. */
  lemma {:induction false} LookupAllValid(reg: Registry, tags: seq<string>)
    requires ValidRegistry(reg)
    ensures ValidRegistry(LookupAll(reg, tags).0)
    decreases |tags|
  {
    if tags != [] {
      LookupSpec(reg, tags[0]);
      LookupAllValid(Lookup(reg, tags[0]).0, tags[1..]);
    }
  }

  /** The tags of a run not among `keys`: the first one, if new, and the new ones of the rest. */
  lemma NewTagsCons(tags: seq<string>, keys: set<string>)
    requires tags != []
    ensures |(set t | t in tags) - keys|
            == |(set t | t in tags[1..]) - (keys + {tags[0]})| + (if tags[0] in keys then 0 else 1)
  {
    TagSetCons(tags);
    var new0 := (set t | t in tags) - keys;
    var new1 := (set t | t in tags[1..]) - (keys + {tags[0]});
    if tags[0] in keys {
      assert new0 == new1;
    } else {
      assert new0 == {tags[0]} + new1 && tags[0] !in new1;
    }
  }

  /** Over any run of lookups, exactly one interpreter is created per tag not registered before. */
  lemma {:induction false} LookupAllCreates(reg: Registry, tags: seq<string>)
    requires ValidRegistry(reg)
    ensures LookupAll(reg, tags).0.created == reg.created + |(set t | t in tags) - reg.interpreters.Keys|
    decreases |tags|
  {
    if tags == [] {
      assert (set t | t in tags) == {};
    } else {
      var first := Lookup(reg, tags[0]);
      LookupSpec(reg, tags[0]);
      LookupAllCreates(first.0, tags[1..]);
      NewTagsCons(tags, reg.interpreters.Keys);
    }
  }

  /** Over any run of lookups, two lookups get the same interpreter exactly when they are for the same tag. */
  lemma LookupAllReuses(reg: Registry, tags: seq<string>)
    requires ValidRegistry(reg)
    ensures var r := LookupAll(reg, tags);
            forall i, j :: 0 <= i < |tags| && 0 <= j < |tags| ==> (r.1[i] == r.1[j] <==> tags[i] == tags[j])
  {
    LookupAllKeeps(reg, tags);
    LookupAllValid(reg, tags);
    var r := LookupAll(reg, tags);
    IdsOfTags(r.0, tags, r.1);
  }

  /** Ids read off a valid registry, one per tag, are equal exactly when the tags are. */
  lemma IdsOfTags(reg: Registry, tags: seq<string>, ids: seq<nat>)
    requires ValidRegistry(reg)
    requires |ids| == |tags|
    requires forall i :: 0 <= i < |tags| ==> tags[i] in reg.interpreters && ids[i] == reg.interpreters[tags[i]]
    ensures forall i, j :: 0 <= i < |tags| && 0 <= j < |tags| ==> (ids[i] == ids[j] <==> tags[i] == tags[j])
  {
  }

  /**
   `convert(key, value, format, meta)` on a registry. A block that is not a
   code block, or has no known class, is left alone (`None`) and nothing is
   created. Otherwise the tag's interpreter is looked up or created, and the
   result is the original block followed by a code block with empty
   attributes holding that interpreter's answer to the code.
   */
  function Rewrite(reg: Registry, key: string, value: Value, communicate: (nat, string) -> string)
    : (r: (Registry, Option<seq<Block>>))
    requires ValidRegistry(reg)
    requires key == "CodeBlock" ==> value.CodeBlockValue?
    ensures ValidRegistry(r.0)
    ensures r.1.None? <==> key != "CodeBlock" || SelectTag(value.attr.classes).None?
    ensures r.1.None? ==> r.0 == reg
    ensures r.1.Some? ==>
              var tag := SelectTag(value.attr.classes).value;
              && r.0 == Lookup(reg, tag).0
              && tag in r.0.interpreters
              && r.1.value == [CodeBlock(value.attr, value.code),
                               CodeBlock(Attr("", [], []), communicate(r.0.interpreters[tag], value.code))]
  {
    if key != "CodeBlock" then (reg, None)
    else
      match SelectTag(value.attr.classes)
      case None => (reg, None)
      case Some(tag) =>
        LookupSpec(reg, tag);
        var (after, id) := Lookup(reg, tag);
        (after, Some([CodeBlock(value.attr, value.code), CodeBlock(Attr("", [], []), communicate(id, value.code))]))
  }

  /**
   `out` is what `convert` gives for the code block `value` when its tag's
   interpreter is the one `reg` registers: nothing is said of a block with no
   known class; otherwise the tag is registered and `out` is the block
   followed by that interpreter's answer.
   */
  predicate Answers(reg: Registry, value: Value, out: Option<seq<Block>>, communicate: (nat, string) -> string)
    requires value.CodeBlockValue?
  {
    SelectTag(value.attr.classes).Some? ==>
      var tag := SelectTag(value.attr.classes).value;
      && tag in reg.interpreters
      && out == Some([CodeBlock(value.attr, value.code),
                      CodeBlock(Attr("", [], []), communicate(reg.interpreters[tag], value.code))])
  }

  /**
   Over a document's code blocks, each block with a known class becomes itself
   followed by the answer of the interpreter its tag has at the end of the run.
   Since a valid registry gives distinct tags distinct ids, two blocks are
   answered by the same interpreter exactly when their tags are equal.
   */
  lemma {:induction false} RewriteAllAnswers(reg: Registry, values: seq<Value>, communicate: (nat, string) -> string)
    requires ValidRegistry(reg)
    requires forall i :: 0 <= i < |values| ==> values[i].CodeBlockValue?
    ensures var r := RewriteAll(reg, values, communicate);
            forall i :: 0 <= i < |values| ==> Answers(r.0, values[i], r.1[i], communicate)
    decreases |values|
  {
    if values != [] {
      var first := Rewrite(reg, "CodeBlock", values[0], communicate);
      var rest := RewriteAll(first.0, values[1..], communicate);
      var r := RewriteAll(reg, values, communicate);
      assert r == (rest.0, [first.1] + rest.1);
      RewriteAllAnswers(first.0, values[1..], communicate);
      RewriteAllKeeps(first.0, values[1..], communicate);
      assert Answers(first.0, values[0], first.1, communicate);
      AnswersKept(first.0, rest.0, values[0], first.1, communicate);
      forall i | 1 <= i < |values|
        ensures Answers(r.0, values[i], r.1[i], communicate)
      {
        assert values[i] == values[1..][i - 1];
        assert r.1[i] == rest.1[i - 1];
      }
    }
  }

  /** What a block was answered with stays true of any later registry that keeps the earlier ids. */
  lemma AnswersKept(before: Registry, after: Registry, value: Value, out: Option<seq<Block>>,
                    communicate: (nat, string) -> string)
    requires value.CodeBlockValue?
    requires Answers(before, value, out, communicate)
    requires forall t :: t in before.interpreters ==> t in after.interpreters && after.interpreters[t] == before.interpreters[t]
    ensures Answers(after, value, out, communicate)
  {
  }

  /** Over a document's code blocks, every tag registered before keeps its interpreter. */
  lemma RewriteAllKeeps(reg: Registry, values: seq<Value>, communicate: (nat, string) -> string)
    requires ValidRegistry(reg)
    requires forall i :: 0 <= i < |values| ==> values[i].CodeBlockValue?
    ensures var r := RewriteAll(reg, values, communicate);
            forall t :: t in reg.interpreters ==> t in r.0.interpreters && r.0.interpreters[t] == reg.interpreters[t]
  {
    RewriteAllIsLookupAll(reg, values, communicate);
    LookupAllKeeps(reg, SelectedTags(values));
  }

  /**
   Two code blocks with the same tag, one after the other: the second is
   answered by the interpreter the first created or found, and creates nothing.
   */
  lemma SameTagSameInterpreter(reg: Registry, first: Value, second: Value, communicate: (nat, string) -> string)
    requires ValidRegistry(reg)
    requires first.CodeBlockValue? && second.CodeBlockValue?
    requires SelectTag(first.attr.classes).Some?
    requires SelectTag(second.attr.classes) == SelectTag(first.attr.classes)
    ensures var one := Rewrite(reg, "CodeBlock", first, communicate);
            var two := Rewrite(one.0, "CodeBlock", second, communicate);
            var id := one.0.interpreters[SelectTag(first.attr.classes).value];
            && two.0 == one.0
            && one.1.value[1].code == communicate(id, first.code)
            && two.1.value[1].code == communicate(id, second.code)
  {
    LookupSpec(reg, SelectTag(first.attr.classes).value);
  }

  /** The code blocks of a document, in order, each handed to `convert` with the key "CodeBlock". */
  function RewriteAll(reg: Registry, values: seq<Value>, communicate: (nat, string) -> string)
    : (r: (Registry, seq<Option<seq<Block>>>))
    requires ValidRegistry(reg)
    requires forall i :: 0 <= i < |values| ==> values[i].CodeBlockValue?
    ensures ValidRegistry(r.0) && |r.1| == |values|
    decreases |values|
  {
    if values == [] then (reg, [])
    else
      var first := Rewrite(reg, "CodeBlock", values[0], communicate);
      var rest := RewriteAll(first.0, values[1..], communicate);
      (rest.0, [first.1] + rest.1)
  }

  /** The tags `convert` selects for a run of code blocks, skipping blocks with no known class. */
  function SelectedTags(values: seq<Value>): (tags: seq<string>)
    requires forall i :: 0 <= i < |values| ==> values[i].CodeBlockValue?
    ensures |tags| <= |values|
    ensures forall t :: t in tags ==> t in Interpreters
    decreases |values|
  {
    if values == [] then []
    else
      match SelectTag(values[0].attr.classes)
      case None => SelectedTags(values[1..])
      case Some(tag) => [tag] + SelectedTags(values[1..])
  }

  /**
   Over a document's code blocks, the filter's registry ends as the run of
   lookups of the selected tags leaves it, so the registry clauses of
   `LookupAllKeeps` and the count of `LookupAllCreates` describe the filter's
   run. Which interpreter answered each block is `RewriteAllAnswers`.
   */
  lemma {:induction false} RewriteAllIsLookupAll(reg: Registry, values: seq<Value>, communicate: (nat, string) -> string)
    requires ValidRegistry(reg)
    requires forall i :: 0 <= i < |values| ==> values[i].CodeBlockValue?
    ensures RewriteAll(reg, values, communicate).0 == LookupAll(reg, SelectedTags(values)).0
    decreases |values|
  {
    if values != [] {
      var first := Rewrite(reg, "CodeBlock", values[0], communicate);
      RewriteAllIsLookupAll(first.0, values[1..], communicate);
      match SelectTag(values[0].attr.classes)
      case None =>
      case Some(tag) =>
        var tags := SelectedTags(values);
        assert tags == [tag] + SelectedTags(values[1..]);
        assert tags[0] == tag && tags[1..] == SelectedTags(values[1..]);
    }
  }

  /** The filter's state: `self.interpreters`, with the count of interpreters created. */
  class Environment {
    var interpreters: map<string, nat>
    var created: nat

    ghost predicate Valid()
      reads this
    {
      ValidRegistry(Current())
    }

    function Current(): Registry
      reads this
    {
      Registry(interpreters, created)
    }

    /** A new environment has no interpreters. */
    constructor ()
      ensures Valid() && interpreters == map[] && created == 0
    {
      interpreters := map[];
      created := 0;
    }

    /** `convert`: returns the replacement blocks, or `None` to leave the element as it is. */
    method Convert(key: string, value: Value, communicate: (nat, string) -> string)
      returns (result: Option<seq<Block>>)
      requires Valid()
      requires key == "CodeBlock" ==> value.CodeBlockValue?
      modifies this
      ensures Valid()
      ensures (Current(), result) == Rewrite(old(Current()), key, value, communicate)
    {
      result := None;
      if key == "CodeBlock" {
        var attr, code := value.attr, value.code;
        var fmt := SelectTag(attr.classes);
        if fmt.None? {
          return;
        }
        var tag := fmt.value;
        LookupSpec(Current(), tag);
        if tag !in interpreters {
          interpreters := interpreters[tag := created];
          created := created + 1;
        }
        var interpreter := interpreters[tag];
        var text := communicate(interpreter, code);
        result := Some([CodeBlock(attr, code), CodeBlock(Attr("", [], []), text)]);
      }
    }
  }
}
