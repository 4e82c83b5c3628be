/** The value inspector: renders an evaluated value as text. Reflection is
    replaced by an abstract description of a runtime value: its type name, its
    `ToString()` text, whether its type is primitive, its public instance fields
    and properties (in reflection order, unsorted), and, when it is enumerable,
    its elements. */
module Inspector {
  import opened Strings

  datatype Option<+T> = None | Some(value: T)

  /** What reading a member gives: its value, or a `TargetInvocationException`. */
  datatype Read = Returned(value: Value) | Threw

  /** A public instance member found by reflection. */
  datatype Member =
    | Field(name: string, read: Read)
    | Property(name: string, indexParameters: nat, read: Read)

  /** A runtime value as the inspector sees it. */
  datatype Value =
    | Null
    | Str(s: string)
    | Obj(typeName: string, text: string, primitive: bool,
          fields: seq<Member>, properties: seq<Member>, items: Option<seq<Value>>)

  /** What reflection guarantees of an object: `GetFields` yields only fields
      and `GetProperties` only properties. */
  predicate Reflected(v: Value)
  {
    v.Obj? ==>
      && (forall i :: 0 <= i < |v.fields| ==> v.fields[i].Field?)
      && (forall i :: 0 <= i < |v.properties| ==> v.properties[i].Property?)
  }

  /** Which kind of member the caller asks to list. */
  datatype InspectionType = Fields | Properties

  /** The outcome of a rendering: the text, or the `NullReferenceException`
      that escapes when a null element of a collection preview is printed. */
  datatype Inspection = Rendered(text: string) | Raised

  /** `Environment.NewLine`, as `StringBuilder.AppendLine` writes it. */
  const NewLine: string := "\n"

  /** Colour of the member-name column. */
  const MEMBER_COLOUR: string := "#14f535"

  /** Width of the member-name column. */
  const NAME_WIDTH: nat := 30

  /** Number of collection elements shown before the ", ..." marker. */
  const PREVIEW_LENGTH: nat := 5

  /** Sequencing two renderings: an exception in either ends the whole one. */
  function Then(a: Inspection, b: Inspection): Inspection
  {
    if a.Rendered? && b.Rendered? then Rendered(a.text + b.text) else Raised
  }

  // ----- Ordering members by name -----

  /** Ordinal lexicographic order on names. */
  predicate NameLe(a: string, b: string)
  {
    a == [] || (b != [] && (a[0] < b[0] || (a[0] == b[0] && NameLe(a[1..], b[1..]))))
  }

  lemma {:induction false} NameLeTotal(a: string, b: string)
    ensures NameLe(a, b) || NameLe(b, a)
  {
    if a != [] && b != [] && a[0] == b[0] {
      NameLeTotal(a[1..], b[1..]);
    }
  }

  lemma {:induction false} NameLeTransitive(a: string, b: string, c: string)
    requires NameLe(a, b) && NameLe(b, c)
    ensures NameLe(a, c)
  {
    if a != [] && b != [] && c != [] && a[0] == b[0] == c[0] {
      NameLeTransitive(a[1..], b[1..], c[1..]);
    }
  }

  predicate SortedByName(ms: seq<Member>)
  {
    forall i, j :: 0 <= i < j < |ms| ==> NameLe(ms[i].name, ms[j].name)
  }

  /** Puts `m` before the first member whose name is not below its own. */
  function Insert(m: Member, sorted: seq<Member>): seq<Member>
  {
    if sorted == [] then [m]
    else if NameLe(m.name, sorted[0].name) then [m] + sorted
    else [sorted[0]] + Insert(m, sorted[1..])
  }

  /** `OrderBy(x => x.Name)`: the members sorted by name. */
  function SortByName(ms: seq<Member>): seq<Member>
  {
    if ms == [] then [] else Insert(ms[0], SortByName(ms[1..]))
  }

  lemma {:induction false} InsertMembers(m: Member, sorted: seq<Member>)
    ensures multiset(Insert(m, sorted)) == multiset(sorted) + multiset{m}
    ensures forall x :: x in Insert(m, sorted) <==> x == m || x in sorted
    ensures |Insert(m, sorted)| == |sorted| + 1
  {
    if sorted != [] && !NameLe(m.name, sorted[0].name) {
      InsertMembers(m, sorted[1..]);
      assert sorted == [sorted[0]] + sorted[1..];
    }
  }

  /** A member placed in front of a sorted list whose head it does not exceed keeps it sorted. */
  lemma PrependSorted(m: Member, sorted: seq<Member>)
    requires SortedByName(sorted)
    requires forall j :: 0 <= j < |sorted| ==> NameLe(m.name, sorted[j].name)
    ensures SortedByName([m] + sorted)
  {
    var r := [m] + sorted;
    forall i, j | 0 <= i < j < |r| ensures NameLe(r[i].name, r[j].name) {
      if i == 0 {
        assert r[j] == sorted[j - 1];
      } else {
        assert r[i] == sorted[i - 1] && r[j] == sorted[j - 1];
      }
    }
  }

  lemma {:induction false} InsertSorted(m: Member, sorted: seq<Member>)
    requires SortedByName(sorted)
    ensures SortedByName(Insert(m, sorted))
  {
    if sorted == [] {
    } else if NameLe(m.name, sorted[0].name) {
      forall j | 0 <= j < |sorted| ensures NameLe(m.name, sorted[j].name) {
        if j > 0 {
          NameLeTransitive(m.name, sorted[0].name, sorted[j].name);
        }
      }
      PrependSorted(m, sorted);
    } else {
      var rest := Insert(m, sorted[1..]);
      InsertSorted(m, sorted[1..]);
      InsertMembers(m, sorted[1..]);
      NameLeTotal(m.name, sorted[0].name);
      forall j | 0 <= j < |rest| ensures NameLe(sorted[0].name, rest[j].name) {
        assert rest[j] in rest;
        if rest[j] != m {
          var k :| 0 <= k < |sorted[1..]| && sorted[1..][k] == rest[j];
          assert sorted[k + 1] == rest[j];
        }
      }
      PrependSorted(sorted[0], rest);
    }
  }

  /** Sorting by name yields members in ascending name order and loses or adds none. */
  lemma {:induction false} SortByNameSorts(ms: seq<Member>)
    ensures SortedByName(SortByName(ms))
    ensures multiset(SortByName(ms)) == multiset(ms)
    ensures |SortByName(ms)| == |ms|
  {
    SortByNameOrders(ms);
    SortByNamePermutes(ms);
  }

  lemma {:induction false} SortByNameOrders(ms: seq<Member>)
    ensures SortedByName(SortByName(ms))
  {
    if ms != [] {
      SortByNameOrders(ms[1..]);
      InsertSorted(ms[0], SortByName(ms[1..]));
    }
  }

  lemma {:induction false} SortByNamePermutes(ms: seq<Member>)
    ensures multiset(SortByName(ms)) == multiset(ms)
    ensures |SortByName(ms)| == |ms|
  {
    if ms != [] {
      var rest := SortByName(ms[1..]);
      SortByNamePermutes(ms[1..]);
      InsertMembers(ms[0], rest);
      assert multiset(ms) == multiset(ms[1..]) + multiset{ms[0]} by {
        assert ms == [ms[0]] + ms[1..];
      }
    }
  }

  // ----- Rendering a member's value -----

  /** `x.ToString()` of a collection element; `None` when `x` is null. */
  function ElementText(v: Value): Option<string>
  {
    match v
    case Null => None
    case Str(s) => Some(s)
    case Obj(_, text, _, _, _, _) => Some(text)
  }

  /** The `ToString()` texts of `es`, or `None` as soon as one of them is null. */
  function Texts(es: seq<Value>): Option<seq<string>>
  {
    if es == [] then Some([])
    else match (ElementText(es[0]), Texts(es[1..]))
      case (Some(t), Some(ts)) => Some([t] + ts)
      case _ => None
  }

  /** The type of the first element is primitive, or is `string`. */
  predicate PrimitiveOrString(first: Value)
  {
    first.Str? || (first.Obj? && first.primitive)
  }

  /** How a member whose value is enumerable is shown. */
  function CollectionText(es: seq<Value>): Inspection
  {
    var count := |es|;
    if count > 0 && PrimitiveOrString(es[0]) then
      var shown := es[..if count < PREVIEW_LENGTH then count else PREVIEW_LENGTH];
      match Texts(shown)
      case None => Raised
      case Some(ts) => Rendered("[" + Join(ts, ", ") + (if count > PREVIEW_LENGTH then ", ..." else "") + "]")
    else
      Rendered("Item Count: " + NatToString(count))
  }

  /** How a member's value is shown after its name. */
  function ValueText(value: Value): Inspection
  {
    match value
    case Null => Rendered("null")
    case Str(s) => Rendered(s)
    case Obj(_, text, _, _, _, items) =>
      if items.Some? then CollectionText(items.value) else Rendered(text)
  }

  /** The value a member read yields: a thrown `TargetInvocationException` leaves it null. */
  function ReadValue(read: Read): Value
  {
    if read.Returned? then read.value else Null
  }

  /** The coloured, padded name column that starts each member line. */
  function NameColumn(name: string): string
  {
    "<color=" + MEMBER_COLOUR + ">" + PadRight(name, NAME_WIDTH) + "</color>"
  }

  /** The text one member adds to the report. */
  function MemberLine(m: Member): Inspection
  {
    if m.Property? && m.indexParameters != 0 then Rendered("")
    else match ValueText(ReadValue(m.read))
      case Raised => Raised
      case Rendered(t) => Rendered(NameColumn(m.name) + t + NewLine)
  }

  /** The text the members `ms` add to the report, in order. */
  function MemberLines(ms: seq<Member>): Inspection
  {
    if ms == [] then Rendered("")
    else Then(MemberLines(ms[..|ms| - 1]), MemberLine(ms[|ms| - 1]))
  }

  // ----- The report -----

  /** The kind of member listed: fields are replaced by properties when there
      are no fields, and properties by fields when there are no properties. */
  function Effective(requested: InspectionType, fieldCount: nat, propertyCount: nat): InspectionType
  {
    var t := if fieldCount == 0 then Properties else requested;
    if propertyCount == 0 then Fields else t
  }

  /** The members listed for an object, sorted by name. */
  function ListedMembers(v: Value, requested: InspectionType): seq<Member>
    requires v.Obj?
  {
    var fields := SortByName(v.fields);
    var properties := SortByName(v.properties);
    if Effective(requested, |fields|, |properties|) == Fields then fields else properties
  }

  /** The first two lines of an object's report: its type, then its `ToString()`. */
  function Header(v: Value): string
    requires v.Obj?
  {
    "[" + v.typeName + "]" + NewLine + v.text + NewLine
  }

  /** What `Inspect(result, requested)` returns. */
  function InspectionOf(result: Value, requested: InspectionType): Inspection
  {
    match result
    case Null => Rendered("null")
    case Str(s) => Rendered(s)
    case Obj(_, _, _, _, _, _) => Then(Rendered(Header(result)), MemberLines(ListedMembers(result, requested)))
  }

  // ----- The imperative inspector -----

  /** Appends the line for `member` to the builder contents `sb`. */
  method AppendMemberInfo(member: Member, sb: string) returns (r: Inspection)
    ensures r == Then(Rendered(sb), MemberLine(member))
  {
    var value := Null;
    match member {
      case Property(_, indexParameters, read) =>
        if indexParameters != 0 {
          return Rendered(sb);
        }
        if read.Returned? {
          value := read.value;
        }
      case Field(_, read) =>
        if read.Returned? {
          value := read.value;
        }
    }
    LineOfValue(member, value);
    ghost var before := sb + NameColumn(member.name);
    var out := sb + NameColumn(member.name);
    match value {
      case Str(s) =>
        out := out + s;
      case Obj(_, text, _, _, _, items) =>
        if items.Some? {
          var enumerated := items.value;
          var count := |enumerated|;
          if count > 0 && PrimitiveOrString(enumerated[0]) {
            var texts := Texts(enumerated[..if count < PREVIEW_LENGTH then count else PREVIEW_LENGTH]);
            if texts.None? {
              return Raised;
            }
            out := out + "[" + Join(texts.value, ", ");
            var marker := "";
            if count > PREVIEW_LENGTH {
              out := out + ", ...";
              marker := ", ...";
            }
            out := out + "]";
            AppendAssoc(before, "[", Join(texts.value, ", "));
            AppendAssoc(before, "[" + Join(texts.value, ", "), marker);
            AppendAssoc(before, "[" + Join(texts.value, ", ") + marker, "]");
          } else {
            out := out + "Item Count: " + NatToString(count);
            AppendAssoc(before, "Item Count: ", NatToString(count));
          }
        } else {
          out := out + text;
        }
      case Null =>
        out := out + "null";
    }
    r := Rendered(out + NewLine);
    AppendAssoc(sb, NameColumn(member.name), ValueText(value).text);
    AppendAssoc(sb, NameColumn(member.name) + ValueText(value).text, NewLine);
  }

  /** The line of a member that is not an indexer, given the value its read yields. */
  lemma LineOfValue(member: Member, value: Value)
    requires !(member.Property? && member.indexParameters != 0)
    requires value == ReadValue(member.read)
    ensures MemberLine(member) == match ValueText(value)
      case Raised => Raised
      case Rendered(t) => Rendered(NameColumn(member.name) + t + NewLine)
  {
  }

  lemma MemberLinesStep(ms: seq<Member>, i: nat)
    requires i < |ms|
    ensures MemberLines(ms[..i + 1]) == Then(MemberLines(ms[..i]), MemberLine(ms[i]))
  {
    assert ms[..i + 1][..i] == ms[..i];
  }

  lemma {:induction false} RaisedStays(ms: seq<Member>, k: nat)
    requires k <= |ms| && MemberLines(ms[..k]) == Raised
    ensures MemberLines(ms) == Raised
    decreases |ms| - k
  {
    if k < |ms| {
      assert ms[..k + 1][..k] == ms[..k];
      RaisedStays(ms, k + 1);
    } else {
      assert ms[..k] == ms;
    }
  }

  /** `Inspect(result, type)`: the report for `result`, built up in a string builder. */
  method Inspect(result: Value, requested: InspectionType) returns (r: Inspection)
    ensures r == InspectionOf(result, requested)
    ensures result == Null ==> r == Rendered("null")
    ensures result.Str? ==> r == Rendered(result.s)
  {
    if result.Null? {
      return Rendered("null");
    }
    if result.Str? {
      return Rendered(result.s);
    }
    var sb := "[" + result.typeName + "]" + NewLine;
    sb := sb + result.text + NewLine;
    var fields := SortByName(result.fields);
    var properties := SortByName(result.properties);
    var kind := requested;
    if |fields| == 0 {
      kind := Properties;
    }
    if |properties| == 0 {
      kind := Fields;
    }
    var members := if kind == Fields then fields else properties;
    assert members == ListedMembers(result, requested);
    for i := 0 to |members|
      invariant MemberLines(members[..i]).Rendered?
      invariant sb == Header(result) + MemberLines(members[..i]).text
    {
      MemberLinesStep(members, i);
      var next := AppendMemberInfo(members[i], sb);
      if next.Raised? {
        RaisedStays(members, i + 1);
        return Raised;
      }
      AppendAssoc(Header(result), MemberLines(members[..i]).text, MemberLine(members[i]).text);
      sb := next.text;
    }
    assert members[..|members|] == members;
    return Rendered(sb);
  }

  // ----- What the report says -----

  /** The listing rule: properties are listed exactly when there are some and
      either there are no fields or properties were asked for; otherwise the
      fields are. Either way the listed members are all of that kind's
      members, each once, in ascending name order, and for a value reflection
      describes they are all properties or all fields accordingly. */
  lemma ListedMembersRule(v: Value, requested: InspectionType)
    requires v.Obj?
    ensures var listed := ListedMembers(v, requested);
      var showProperties := |v.properties| > 0 && (|v.fields| == 0 || requested == Properties);
      && SortedByName(listed)
      && multiset(listed) == multiset(if showProperties then v.properties else v.fields)
      && (Reflected(v) ==> forall i :: 0 <= i < |listed| ==> (listed[i].Property? <==> showProperties))
  {
    SortByNameSorts(v.fields);
    SortByNameSorts(v.properties);
    var listed := ListedMembers(v, requested);
    var showProperties := |v.properties| > 0 && (|v.fields| == 0 || requested == Properties);
    var source := if showProperties then v.properties else v.fields;
    if Reflected(v) {
      forall i | 0 <= i < |listed| ensures listed[i].Property? <==> showProperties {
        assert listed[i] in multiset(listed);
        assert listed[i] in source;
      }
    }
  }

  /** The texts of the member lines of `ms`, in order. */
  function LineTexts(ms: seq<Member>): seq<string>
    requires forall i :: 0 <= i < |ms| ==> MemberLine(ms[i]).Rendered?
  {
    seq(|ms|, i requires 0 <= i < |ms| => MemberLine(ms[i]).text)
  }

  /** The member lines raise exactly when one of the members' lines does;
      otherwise they are the lines one after another. */
  lemma MemberLinesConcat(ms: seq<Member>)
    ensures MemberLines(ms) == Raised <==> exists i :: 0 <= i < |ms| && MemberLine(ms[i]) == Raised
    ensures (forall i :: 0 <= i < |ms| ==> MemberLine(ms[i]).Rendered?) ==>
      MemberLines(ms) == Rendered(Concat(LineTexts(ms)))
  {
    MemberLinesRaised(ms);
    if forall i :: 0 <= i < |ms| ==> MemberLine(ms[i]).Rendered? {
      MemberLinesText(ms);
    }
  }

  lemma {:induction false} MemberLinesRaised(ms: seq<Member>)
    ensures MemberLines(ms) == Raised <==> exists i :: 0 <= i < |ms| && MemberLine(ms[i]) == Raised
  {
    if ms != [] {
      var init := ms[..|ms| - 1];
      var last := ms[|ms| - 1];
      MemberLinesRaised(init);
      assert MemberLines(ms) == Then(MemberLines(init), MemberLine(last));
      if MemberLines(ms) == Raised {
        if MemberLine(last) == Raised {
          assert MemberLine(ms[|ms| - 1]) == Raised;
        } else {
          var i :| 0 <= i < |init| && MemberLine(init[i]) == Raised;
          assert init[i] == ms[i];
        }
      }
      if exists i :: 0 <= i < |ms| && MemberLine(ms[i]) == Raised {
        var i :| 0 <= i < |ms| && MemberLine(ms[i]) == Raised;
        if i < |init| {
          assert init[i] == ms[i];
        }
      }
    }
  }

  lemma {:induction false} MemberLinesText(ms: seq<Member>)
    requires forall i :: 0 <= i < |ms| ==> MemberLine(ms[i]).Rendered?
    ensures MemberLines(ms) == Rendered(Concat(LineTexts(ms)))
  {
    if ms != [] {
      var init := ms[..|ms| - 1];
      var last := ms[|ms| - 1];
      assert forall i :: 0 <= i < |init| ==> init[i] == ms[i];
      MemberLinesText(init);
      LineTextsStep(ms);
      ConcatAppend(LineTexts(init), [MemberLine(last).text]);
      ConcatSingle(MemberLine(last).text);
    }
  }

  lemma LineTextsStep(ms: seq<Member>)
    requires ms != []
    requires forall i :: 0 <= i < |ms| ==> MemberLine(ms[i]).Rendered?
    ensures LineTexts(ms) == LineTexts(ms[..|ms| - 1]) + [MemberLine(ms[|ms| - 1]).text]
  {
  }

  /** An object's report is its header (type line, then `ToString()` line)
      followed by one line per listed member, in ascending name order; it
      raises exactly when one of those lines does. */
  lemma ReportLayout(v: Value, requested: InspectionType)
    requires v.Obj?
    ensures var listed := ListedMembers(v, requested);
      && (InspectionOf(v, requested) == Raised <==> exists i :: 0 <= i < |listed| && MemberLine(listed[i]) == Raised)
      && ((forall i :: 0 <= i < |listed| ==> MemberLine(listed[i]).Rendered?) ==>
          InspectionOf(v, requested) == Rendered("[" + v.typeName + "]\n" + v.text + "\n" + Concat(LineTexts(listed))))
  {
    var listed := ListedMembers(v, requested);
    assert InspectionOf(v, requested) == Then(Rendered(Header(v)), MemberLines(listed));
    assert Header(v) == "[" + v.typeName + "]\n" + v.text + "\n";
    MemberLinesConcat(listed);
  }

  /** An indexer property adds nothing; any other member adds one line that
      starts with its name in the coloured column padded to 30 characters and
      ends with a newline (unless showing its value raises). */
  lemma MemberLineShape(m: Member)
    ensures m.Property? && m.indexParameters != 0 ==> MemberLine(m) == Rendered("")
    ensures !(m.Property? && m.indexParameters != 0) ==>
      (MemberLine(m) == Raised <==> ValueText(ReadValue(m.read)) == Raised)
    ensures !(m.Property? && m.indexParameters != 0) && MemberLine(m).Rendered? ==>
      var line := MemberLine(m).text;
      && IsPrefix("<color=#14f535>" + PadRight(m.name, 30) + "</color>", line)
      && line[|line| - 1] == '\n'
  {
    if !(m.Property? && m.indexParameters != 0) {
      var shown := ValueText(ReadValue(m.read));
      LineOfValue(m, ReadValue(m.read));
      if shown.Rendered? {
        var column := NameColumn(m.name);
        var line := column + shown.text + NewLine;
        assert column == "<color=#14f535>" + PadRight(m.name, 30) + "</color>";
        assert line[..|column|] == column;
        assert MemberLine(m).text == line;
      }
    }
  }

  /** For any field or non-indexer property: a read that throws, or a null
      value, shows "null"; a string value is shown verbatim; any other
      non-collection shows its `ToString()`. */
  lemma PlainValues(m: Member)
    requires !(m.Property? && m.indexParameters != 0)
    ensures m.read.Threw? ==> MemberLine(m) == Rendered(NameColumn(m.name) + "null\n")
    ensures ReadValue(m.read) == Null ==> MemberLine(m) == Rendered(NameColumn(m.name) + "null\n")
    ensures ReadValue(m.read).Str? ==> MemberLine(m) == Rendered(NameColumn(m.name) + ReadValue(m.read).s + "\n")
    ensures ReadValue(m.read).Obj? && ReadValue(m.read).items.None? ==>
      MemberLine(m) == Rendered(NameColumn(m.name) + ReadValue(m.read).text + "\n")
  {
  }

  /** `Texts` fails exactly when some element is null; otherwise it lists every
      element's `ToString()` text, in order. */
  lemma {:induction false} TextsOfElements(es: seq<Value>)
    ensures Texts(es).None? <==> exists i :: 0 <= i < |es| && es[i] == Null
    ensures Texts(es).Some? ==>
      && |Texts(es).value| == |es|
      && forall i :: 0 <= i < |es| ==> Texts(es).value[i] == ElementText(es[i]).value
  {
    if es != [] {
      TextsOfElements(es[1..]);
      assert forall i :: 1 <= i < |es| ==> es[1..][i - 1] == es[i];
      if exists i :: 0 <= i < |es[1..]| && es[1..][i] == Null {
        var i :| 0 <= i < |es[1..]| && es[1..][i] == Null;
        assert es[i + 1] == Null;
      }
    }
  }

  /** A collection whose first element is primitive or a string shows its first
      min(5, n) elements' texts, joined by ", ", with ", ..." added exactly
      when it has more than 5; it raises exactly when one of those shown
      elements is null. */
  lemma CollectionPreview(es: seq<Value>)
    requires |es| > 0 && PrimitiveOrString(es[0])
    ensures var k := if |es| < 5 then |es| else 5;
      && (CollectionText(es) == Raised <==> exists i :: 0 <= i < k && es[i] == Null)
      && ((forall i :: 0 <= i < k ==> es[i] != Null) ==>
          CollectionText(es) == Rendered("[" + Join(seq(k, i requires 0 <= i < k => ElementText(es[i]).value), ", ")
                                         + (if |es| > 5 then ", ..." else "") + "]"))
  {
    var k := if |es| < 5 then |es| else 5;
    TextsOfElements(es[..k]);
    assert forall i :: 0 <= i < k ==> es[..k][i] == es[i];
    if (forall i :: 0 <= i < k ==> es[i] != Null) {
      assert Texts(es[..k]).value == seq(k, i requires 0 <= i < k => ElementText(es[i]).value);
    }
  }

  /** An empty collection, or one whose first element is null or of a type that
      is neither primitive nor `string`, shows only "Item Count: " and its size
      in decimal. */
  lemma CollectionCount(es: seq<Value>)
    requires |es| == 0 || !PrimitiveOrString(es[0])
    ensures CollectionText(es).Rendered?
    ensures var text := CollectionText(es).text;
      && IsPrefix("Item Count: ", text)
      && DigitsValue(text[12..]) == |es|
      && forall i :: 12 <= i < |text| ==> '0' <= text[i] <= '9'
  {
    NatToStringDenotes(|es|);
    assert CollectionText(es).text[12..] == NatToString(|es|);
  }
}
