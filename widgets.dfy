/** A tree of GUI widgets (a main window, layouts, line edits and combo
    boxes) and its text serialisation. Widget objects live in an arena:
    a widget is identified by its position in `widgets`, the order in which
    the objects were created, and a child is always created after its
    parent. */
module Widgets {
  import opened Wrappers

  datatype Alignment = Horizontal | Vertical

  /** The subclass of a widget with the attribute it adds. */
  datatype Kind =
    | MainWindow(title: string)
    | Layout(alignment: Alignment)
    | LineEdit(maxLength: int := 10)
    | ComboBox(items: seq<string>)

  datatype Widget = Widget(kind: Kind, parent: Option<nat>, children: seq<nat>)

  /** Widget i is linked both ways with its parent and its children; the
      children were created after it, in the order of the list. */
  predicate Linked(ws: seq<Widget>, i: nat)
    requires i < |ws|
  {
    (forall k :: 0 <= k < |ws[i].children| ==>
       i < ws[i].children[k] < |ws| && ws[ws[i].children[k]].parent == Some(i)) &&
    (forall k, l :: 0 <= k < l < |ws[i].children| ==> ws[i].children[k] < ws[i].children[l]) &&
    (ws[i].parent.Some? ==> ws[i].parent.value < i && i in ws[ws[i].parent.value].children) &&
    (ws[i].kind.MainWindow? ==> ws[i].parent.None?)
  }

  predicate WellFormed(ws: seq<Widget>)
  {
    forall i :: 0 <= i < |ws| ==> Linked(ws, i)
  }

  // ---------------------------------------------------------------------
  // to_binary

  const DIGITS: string := "0123456789"

  function NatToString(n: nat): (s: string)
    ensures |s| >= 1 && forall k :: 0 <= k < |s| ==> s[k] in DIGITS
  {
    if n < 10 then [DIGITS[n]] else NatToString(n / 10) + [DIGITS[n % 10]]
  }

  /** f"{x}" for an int. */
  function IntToString(x: int): string
  {
    if x < 0 then "-" + NatToString(-x) else NatToString(x)
  }

  /** "/".join(items). */
  function Join(items: seq<string>): string
  {
    if |items| == 0 then ""
    else if |items| == 1 then items[0]
    else items[0] + "/" + Join(items[1..])
  }

  /** The class code of the record: MainWindow 0, Layout 1, LineEdit 2,
      ComboBox 3. */
  function Code(k: Kind): char
  {
    match k
    case MainWindow(_) => '0'
    case Layout(_) => '1'
    case LineEdit(_) => '2'
    case ComboBox(_) => '3'
  }

  /** The text between the record header and its "//" terminator. */
  function Payload(k: Kind): string
  {
    match k
    case MainWindow(title) => title
    case Layout(a) => if a == Horizontal then "1" else "2"
    case LineEdit(m) => IntToString(m)
    case ComboBox(items) => Join(items)
  }

  /** The generation handed to the children: unchanged below a main window,
      otherwise increased by one plus the widget's own sibling index. */
  function ChildGeneration(k: Kind, generation: nat, countBrother: nat): nat
  {
    if k.MainWindow? then generation else generation + 1 + countBrother
  }

  /** One record: class code, generation, '/', payload, "//". */
  function RecordText(k: Kind, generation: nat): string
  {
    [Code(k)] + NatToString(generation) + "/" + Payload(k) + "//"
  }

  /** to_binary(generation, count_brother) of widget w: its record followed
      by the records of its children in child order. */
  function Encoding(ws: seq<Widget>, w: nat, generation: nat, countBrother: nat): string
    requires WellFormed(ws) && w < |ws|
    decreases |ws| - w, 1
  {
    RecordText(ws[w].kind, generation)
      + ChildrenEncoding(ws, w, ChildGeneration(ws[w].kind, generation, countBrother), 0)
  }

  /** The loop over enumerate(self.childrens) from child k on. */
  function ChildrenEncoding(ws: seq<Widget>, w: nat, generation: nat, k: nat): string
    requires WellFormed(ws) && w < |ws| && k <= |ws[w].children|
    decreases |ws| - w, 0, |ws[w].children| - k
  {
    if k == |ws[w].children| then ""
    else
      assert Linked(ws, w);
      Encoding(ws, ws[w].children[k], generation, k) + ChildrenEncoding(ws, w, generation, k + 1)
  }

  /** One turn of the children loop: the encoding of child k comes next. */
  lemma ChildrenEncodingStep(ws: seq<Widget>, w: nat, generation: nat, k: nat, done: string, child: string)
    requires WellFormed(ws) && w < |ws| && k < |ws[w].children| && ws[w].children[k] < |ws|
    requires child == Encoding(ws, ws[w].children[k], generation, k)
    ensures done + ChildrenEncoding(ws, w, generation, k) == (done + child) + ChildrenEncoding(ws, w, generation, k + 1)
  {
    var rest := ChildrenEncoding(ws, w, generation, k + 1);
    assert ChildrenEncoding(ws, w, generation, k) == child + rest;
    assert done + (child + rest) == (done + child) + rest;
  }

  // ---------------------------------------------------------------------
  // The records in preorder, and a reader that recovers them

  /** An entry per widget in the order to_binary writes them: the kind and
      the generation written in its record. */
  function Entries(ws: seq<Widget>, w: nat, generation: nat, countBrother: nat): seq<(Kind, nat)>
    requires WellFormed(ws) && w < |ws|
    decreases |ws| - w, 1
  {
    [(ws[w].kind, generation)]
      + ChildrenEntries(ws, w, ChildGeneration(ws[w].kind, generation, countBrother), 0)
  }

  function ChildrenEntries(ws: seq<Widget>, w: nat, generation: nat, k: nat): seq<(Kind, nat)>
    requires WellFormed(ws) && w < |ws| && k <= |ws[w].children|
    decreases |ws| - w, 0, |ws[w].children| - k
  {
    if k == |ws[w].children| then []
    else
      assert Linked(ws, w);
      Entries(ws, ws[w].children[k], generation, k) + ChildrenEntries(ws, w, generation, k + 1)
  }

  function Text(es: seq<(Kind, nat)>): string
  {
    if es == [] then "" else RecordText(es[0].0, es[0].1) + Text(es[1..])
  }

  lemma {:induction false} TextAppend(a: seq<(Kind, nat)>, b: seq<(Kind, nat)>)
    ensures Text(a + b) == Text(a) + Text(b)
  {
    if a != [] {
      var head := RecordText(a[0].0, a[0].1);
      assert (a + b)[0] == a[0] && (a + b)[1..] == a[1..] + b;
      assert Text(a + b) == head + Text(a[1..] + b);
      TextAppend(a[1..], b);
      assert head + (Text(a[1..]) + Text(b)) == (head + Text(a[1..])) + Text(b);
    } else {
      assert a + b == b;
    }
  }

  /** The serialisation is the concatenation of the records of the widgets
      in preorder. */
  lemma {:induction false} EncodingIsText(ws: seq<Widget>, w: nat, generation: nat, countBrother: nat)
    requires WellFormed(ws) && w < |ws|
    ensures Encoding(ws, w, generation, countBrother) == Text(Entries(ws, w, generation, countBrother))
    decreases |ws| - w, 1
  {
    var g := ChildGeneration(ws[w].kind, generation, countBrother);
    ChildrenEncodingIsText(ws, w, g, 0);
    TextAppend([(ws[w].kind, generation)], ChildrenEntries(ws, w, g, 0));
    assert Text([(ws[w].kind, generation)]) == RecordText(ws[w].kind, generation);
  }

  lemma {:induction false} ChildrenEncodingIsText(ws: seq<Widget>, w: nat, generation: nat, k: nat)
    requires WellFormed(ws) && w < |ws| && k <= |ws[w].children|
    ensures ChildrenEncoding(ws, w, generation, k) == Text(ChildrenEntries(ws, w, generation, k))
    decreases |ws| - w, 0, |ws[w].children| - k
  {
    if k < |ws[w].children| {
      ChildrenUnfold(ws, w, generation, k);
      var c := ws[w].children[k];
      EncodingIsText(ws, c, generation, k);
      ChildrenEncodingIsText(ws, w, generation, k + 1);
      TextAppend(Entries(ws, c, generation, k), ChildrenEntries(ws, w, generation, k + 1));
    }
  }

  /** Child k comes first in both the children loop and its entries. */
  lemma ChildrenUnfold(ws: seq<Widget>, w: nat, generation: nat, k: nat)
    requires WellFormed(ws) && w < |ws| && k < |ws[w].children|
    ensures w < ws[w].children[k] < |ws|
    ensures ChildrenEncoding(ws, w, generation, k)
         == Encoding(ws, ws[w].children[k], generation, k) + ChildrenEncoding(ws, w, generation, k + 1)
    ensures ChildrenEntries(ws, w, generation, k)
         == Entries(ws, ws[w].children[k], generation, k) + ChildrenEntries(ws, w, generation, k + 1)
  {
    assert Linked(ws, w);
  }

  /** Payloads the reader can delimit: a title without '/', and combo box
      items that are non-empty and without '/'. */
  predicate Delimitable(k: Kind)
  {
    match k
    case MainWindow(title) => '/' !in title
    case ComboBox(items) => forall i :: 0 <= i < |items| ==> items[i] != "" && '/' !in items[i]
    case _ => true
  }

  /** The value of a decimal digit character. */
  function DigitValue(c: char): (d: Option<nat>)
    ensures d.Some? ==> d.value < 10 && DIGITS[d.value] == c
  {
    if '0' <= c <= '9' then Some((c - '0') as nat) else None
  }

  function ParseNat(s: string): Option<nat>
  {
    if s == [] then None
    else
      var d := DigitValue(s[|s| - 1]);
      if d.None? then None
      else if |s| == 1 then d
      else
        var hi := ParseNat(s[..|s| - 1]);
        if hi.None? then None else Some(10 * hi.value + d.value)
  }

  /** int(s) for an optional sign followed by decimal digits. */
  function ParseInt(s: string): Option<int>
  {
    if s != [] && (s[0] == '-' || s[0] == '+') then
      var m := ParseNat(s[1..]);
      if m.None? then None
      else
        var v: int := if s[0] == '-' then -(m.value as int) else m.value;
        Some(v)
    else
      var m := ParseNat(s);
      if m.None? then None else Some(m.value)
  }

  /** s.split("/") of a non-empty payload; the empty payload is no items. */
  function Split(s: string): seq<string>
  {
    if s == [] then []
    else
      var i := FindSlash(s, 0);
      if i == |s| then [s] else [s[..i]] + Split(s[i + 1..])
  }

  /** The first '/' at or after i, or |s|. */
  function FindSlash(s: string, i: nat): (j: nat)
    requires i <= |s|
    ensures i <= j <= |s| && (j < |s| ==> s[j] == '/')
    decreases |s| - i
  {
    if i == |s| then |s| else if s[i] == '/' then i else FindSlash(s, i + 1)
  }

  /** The first "//" at or after i, or |s|. */
  function FindDoubleSlash(s: string, i: nat): (j: nat)
    requires i <= |s|
    ensures i <= j <= |s| && (j < |s| ==> j + 1 < |s| && s[j] == '/' && s[j + 1] == '/')
    decreases |s| - i
  {
    if i + 1 >= |s| then |s|
    else if s[i] == '/' && s[i + 1] == '/' then i
    else FindDoubleSlash(s, i + 1)
  }

  /** The widget a record describes. */
  function DecodeKind(code: char, payload: string): Option<Kind>
  {
    match code
    case '0' => Some(MainWindow(payload))
    case '1' =>
      if payload == "1" then Some(Layout(Horizontal))
      else if payload == "2" then Some(Layout(Vertical))
      else None
    case '2' =>
      var m := ParseInt(payload);
      if m.None? then None else Some(LineEdit(m.value))
    case '3' => Some(ComboBox(Split(payload)))
    case _ => None
  }

  /** Reads one record from the front of s: the code, the generation up to
      the first '/', and the payload up to the first "//". */
  function ReadRecord(s: string): (r: Option<((Kind, nat), string)>)
    requires s != []
    ensures r.Some? ==> |r.value.1| < |s|
  {
    var j := FindSlash(s, 1);
    if j == |s| then None
    else
      var m := FindDoubleSlash(s, j + 1);
      if m == |s| then None
      else Fields(s[0], ParseNat(s[1..j]), s[j + 1..m], s[m + 2..])
  }

  /** The record read from its code, its parsed generation, its payload
      and the text after its "//". */
  function Fields(code: char, generation: Option<nat>, payload: string, after: string): (r: Option<((Kind, nat), string)>)
    ensures r.Some? ==> r.value.1 == after
  {
    if generation.None? then None
    else
      var kind := DecodeKind(code, payload);
      if kind.None? then None else Some(((kind.value, generation.value), after))
  }

  /** Reads records until the text is used up. */
  function ReadRecords(s: string): Option<seq<(Kind, nat)>>
    decreases |s|
  {
    if s == [] then Some([])
    else
      var r := ReadRecord(s);
      if r.None? then None
      else
        var rest := ReadRecords(r.value.1);
        if rest.None? then None else Some([r.value.0] + rest.value)
  }

  lemma {:induction false} ParseNatToString(n: nat)
    ensures ParseNat(NatToString(n)) == Some(n)
  {
    if n < 10 {
      DigitValueOf(n);
      assert NatToString(n) == [DIGITS[n]];
    } else {
      ParseNatToString(n / 10);
      ParseNatSnoc(NatToString(n / 10), n % 10);
      assert n == 10 * (n / 10) + n % 10;
    }
  }

  /** One more digit multiplies by ten and adds it. */
  lemma ParseNatSnoc(hi: string, d: nat)
    requires d < 10 && hi != [] && ParseNat(hi).Some?
    ensures ParseNat(hi + [DIGITS[d]]) == Some(10 * ParseNat(hi).value + d)
  {
    DigitValueOf(d);
    ParseNatAppend(hi, DIGITS[d], d);
  }

  /** Appending a digit character c of value d to a parsed number. */
  lemma ParseNatAppend(hi: string, c: char, d: nat)
    requires DigitValue(c) == Some(d) && hi != [] && ParseNat(hi).Some?
    ensures ParseNat(hi + [c]) == Some(10 * ParseNat(hi).value + d)
  {
    var s := hi + [c];
    assert s[|s| - 1] == c && s[..|s| - 1] == hi;
  }

  lemma DigitValueOf(d: nat)
    requires d < 10
    ensures DigitValue(DIGITS[d]) == Some(d)
  {
  }

  lemma ParseIntToString(x: int)
    ensures ParseInt(IntToString(x)) == Some(x)
  {
    var n: nat := if x < 0 then -x else x;
    var d := NatToString(n);
    ParseNatToString(n);
    if x < 0 {
      var t := "-" + d;
      assert t[0] == '-' && t[1..] == d;
      assert ParseInt(t) == Some(-(n as int));
    } else {
      assert d[0] in DIGITS;
      assert d[0] != '-' && d[0] != '+';
      assert ParseInt(d) == Some(n as int);
    }
  }

  /** FindSlash skips n characters that are not '/'. */
  lemma {:induction false} FindSlashSkips(s: string, i: nat, n: nat)
    requires i + n <= |s| && forall k :: i <= k < i + n ==> s[k] != '/'
    requires i + n == |s| || s[i + n] == '/'
    ensures FindSlash(s, i) == i + n
    decreases n
  {
    if n > 0 {
      FindSlashSkips(s, i + 1, n - 1);
    }
  }

  /** FindDoubleSlash skips a text with no "//" that does not end in '/'. */
  lemma {:induction false} FindDoubleSlashSkips(s: string, i: nat, n: nat)
    requires i + n + 1 < |s| && s[i + n] == '/' && s[i + n + 1] == '/'
    requires forall k :: i <= k < i + n ==> !(s[k] == '/' && s[k + 1] == '/')
    ensures FindDoubleSlash(s, i) == i + n
    decreases n
  {
    if n > 0 {
      FindDoubleSlashSkips(s, i + 1, n - 1);
    }
  }

  lemma {:induction false} SplitJoin(items: seq<string>)
    requires forall i :: 0 <= i < |items| ==> items[i] != "" && '/' !in items[i]
    ensures Split(Join(items)) == items
  {
    if |items| == 1 {
      FindSlashSkips(items[0], 0, |items[0]|);
    } else if |items| > 1 {
      var s := Join(items);
      var rest := Join(items[1..]);
      assert s == items[0] + "/" + rest;
      FindSlashSkips(s, 0, |items[0]|);
      assert s[..|items[0]|] == items[0] && s[|items[0]| + 1..] == rest;
      SplitJoin(items[1..]);
    }
  }

  /** s holds no "//" and does not end in '/'. */
  predicate Delimited(s: string)
  {
    (forall i :: 0 <= i < |s| - 1 ==> !(s[i] == '/' && s[i + 1] == '/')) &&
    (s != [] ==> s[|s| - 1] != '/')
  }

  lemma SlashFreeDelimited(s: string)
    requires '/' !in s
    ensures Delimited(s)
  {
    if s != [] {
      assert s[|s| - 1] in s;
    }
    forall i | 0 <= i < |s| - 1
      ensures s[i] != '/'
    {
      assert s[i] in s;
    }
  }

  lemma IntToStringSlashFree(x: int)
    ensures '/' !in IntToString(x)
  {
    NatToStringSlashFree(if x < 0 then -x else x);
  }

  /** A payload never holds "//" and never ends in '/'. */
  lemma PayloadDelimited(k: Kind)
    requires Delimitable(k)
    ensures Delimited(Payload(k))
  {
    match k
    case MainWindow(title) => SlashFreeDelimited(title);
    case Layout(a) => SlashFreeDelimited(Payload(k));
    case LineEdit(m) =>
      IntToStringSlashFree(m);
      SlashFreeDelimited(Payload(k));
    case ComboBox(items) =>
      JoinDelimited(items);
  }

  lemma {:induction false} JoinDelimited(items: seq<string>)
    requires forall i :: 0 <= i < |items| ==> items[i] != "" && '/' !in items[i]
    ensures Delimited(Join(items))
  {
    if |items| == 1 {
      SlashFreeDelimited(items[0]);
    } else if |items| > 1 {
      JoinDelimited(items[1..]);
      SlashFreeDelimited(items[0]);
      var a := items[0];
      var rest := Join(items[1..]);
      assert rest != [] && rest[0] != '/' by {
        JoinStart(items[1..]);
        assert items[1][0] in items[1];
      }
      JoinDelimitedStep(a, rest);
    }
  }

  lemma JoinStart(items: seq<string>)
    requires |items| >= 1
    ensures |Join(items)| >= |items[0]| && Join(items)[..|items[0]|] == items[0]
  {
  }

  /** a + "/" + rest is delimited when both sides are and rest starts with
      something other than '/'. */
  lemma JoinDelimitedStep(a: string, rest: string)
    requires a != [] && Delimited(a) && Delimited(rest) && rest != [] && rest[0] != '/'
    ensures Delimited(a + "/" + rest)
  {
    var s := a + "/" + rest;
    forall i | 0 <= i < |s| - 1
      ensures !(s[i] == '/' && s[i + 1] == '/')
    {
      if i + 1 < |a| {
        assert s[i] == a[i] && s[i + 1] == a[i + 1];
      } else if i + 1 == |a| {
        assert s[i] == a[|a| - 1];
      } else if i == |a| {
        assert s[i + 1] == rest[0];
      } else {
        assert s[i] == rest[i - |a| - 1] && s[i + 1] == rest[i - |a|];
      }
    }
    assert s[|s| - 1] == rest[|rest| - 1];
  }

  /** The payload decodes back to the widget's kind. */
  lemma DecodeKindRoundTrip(k: Kind)
    requires Delimitable(k)
    ensures DecodeKind(Code(k), Payload(k)) == Some(k)
  {
    match k
    case MainWindow(_) =>
    case Layout(_) =>
    case LineEdit(m) => ParseIntToString(m);
    case ComboBox(items) => SplitJoin(items);
  }

  /** Reading a record written by to_binary gives back the kind and the
      generation, and leaves what follows it. */
  lemma ReadRecordText(k: Kind, generation: nat, rest: string)
    requires Delimitable(k)
    ensures ReadRecord(RecordText(k, generation) + rest) == Some(((k, generation), rest))
  {
    var s := RecordText(k, generation) + rest;
    var digits, p := NatToString(generation), Payload(k);
    var j := 1 + |digits|;
    var m := j + 1 + |p|;
    RecordLayout(s, Code(k), digits, p, rest, j, m);
    NatToStringSlashFree(generation);
    HeaderFields(s, digits);
    PayloadDelimited(k);
    PayloadFields(s, j + 1, p);
    ParseNatToString(generation);
    DecodeKindRoundTrip(k);
    ReadRecordParsed(s, j, m, Code(k), digits, p, k, generation, rest);
  }

  lemma NatToStringSlashFree(n: nat)
    ensures '/' !in NatToString(n)
  {
    var d := NatToString(n);
    forall i | 0 <= i < |d|
      ensures d[i] != '/'
    {
      assert d[i] in DIGITS;
    }
  }

  /** Where the fields of code + digits + "/" + p + "//" + rest lie: the
      generation ends at j and the payload at m. */
  lemma RecordLayout(s: string, code: char, digits: string, p: string, rest: string, j: nat, m: nat)
    requires s == [code] + digits + "/" + p + "//" + rest
    requires j == 1 + |digits| && m == j + 1 + |p|
    ensures m + 2 <= |s| && s[0] == code
    ensures s[1..j] == digits && s[j] == '/'
    ensures s[j + 1..m] == p && s[m] == '/' && s[m + 1] == '/'
    ensures s[m + 2..] == rest
  {
  }

  /** FindSlash from 1 stops at the '/' after the generation digits. */
  lemma HeaderFields(s: string, digits: string)
    requires 1 + |digits| < |s| && s[1..1 + |digits|] == digits && s[1 + |digits|] == '/' && '/' !in digits
    ensures FindSlash(s, 1) == 1 + |digits|
  {
    forall i | 1 <= i < 1 + |digits|
      ensures s[i] != '/'
    {
      assert s[i] == digits[i - 1];
    }
    FindSlashSkips(s, 1, |digits|);
  }

  /** FindDoubleSlash from i stops at the "//" after a delimited payload p. */
  lemma PayloadFields(s: string, i: nat, p: string)
    requires i + |p| + 1 < |s| && s[i..i + |p|] == p && s[i + |p|] == '/' && s[i + |p| + 1] == '/'
    requires Delimited(p)
    ensures FindDoubleSlash(s, i) == i + |p|
  {
    forall k | i <= k < i + |p|
      ensures !(s[k] == '/' && s[k + 1] == '/')
    {
      assert s[k] == p[k - i];
      if k + 1 < i + |p| {
        assert s[k + 1] == p[k + 1 - i];
      }
    }
    FindDoubleSlashSkips(s, i, |p|);
  }

  /** ReadRecord on a text whose fields have been located: the generation
      ends at j and the payload at m. */
  lemma ReadRecordParsed(s: string, j: nat, m: nat, code: char, digits: string, p: string, k: Kind, generation: nat, rest: string)
    requires 1 <= j < m && m + 2 <= |s|
    requires FindSlash(s, 1) == j && FindDoubleSlash(s, j + 1) == m
    requires s[0] == code && s[1..j] == digits && s[j + 1..m] == p && s[m + 2..] == rest
    requires ParseNat(digits) == Some(generation) && DecodeKind(code, p) == Some(k)
    ensures ReadRecord(s) == Some(((k, generation), rest))
  {
  }

  lemma {:induction false} ReadRecordsText(es: seq<(Kind, nat)>)
    requires EntriesOk(es)
    ensures ReadRecords(Text(es)) == Some(es)
  {
    if es != [] {
      var tail := Text(es[1..]);
      var s := RecordText(es[0].0, es[0].1) + tail;
      assert Text(es) == s;
      ReadRecordText(es[0].0, es[0].1, tail);
      ReadRecordsText(es[1..]);
      ReadRecordsCons(s, es[0], tail, es[1..]);
      assert [es[0]] + es[1..] == es;
    }
  }

  /** A record followed by readable records. */
  lemma ReadRecordsCons(s: string, e: (Kind, nat), tail: string, later: seq<(Kind, nat)>)
    requires s != [] && ReadRecord(s) == Some((e, tail)) && ReadRecords(tail) == Some(later)
    ensures ReadRecords(s) == Some([e] + later)
  {
  }

  predicate AllDelimitable(ws: seq<Widget>)
  {
    forall i :: 0 <= i < |ws| ==> Delimitable(ws[i].kind)
  }

  predicate EntriesOk(es: seq<(Kind, nat)>)
  {
    forall i :: 0 <= i < |es| ==> Delimitable(es[i].0)
  }

  lemma EntriesOkAppend(a: seq<(Kind, nat)>, b: seq<(Kind, nat)>)
    requires EntriesOk(a) && EntriesOk(b)
    ensures EntriesOk(a + b)
  {
    forall i | 0 <= i < |a + b|
      ensures Delimitable((a + b)[i].0)
    {
      if i < |a| {
        assert (a + b)[i] == a[i];
      } else {
        assert (a + b)[i] == b[i - |a|];
      }
    }
  }

  lemma {:induction false} EntriesDelimitable(ws: seq<Widget>, w: nat, generation: nat, countBrother: nat)
    requires WellFormed(ws) && w < |ws| && AllDelimitable(ws)
    ensures EntriesOk(Entries(ws, w, generation, countBrother))
    decreases |ws| - w, 1
  {
    var g := ChildGeneration(ws[w].kind, generation, countBrother);
    ChildrenEntriesDelimitable(ws, w, g, 0);
    EntriesOkAppend([(ws[w].kind, generation)], ChildrenEntries(ws, w, g, 0));
  }

  lemma {:induction false} ChildrenEntriesDelimitable(ws: seq<Widget>, w: nat, generation: nat, k: nat)
    requires WellFormed(ws) && w < |ws| && k <= |ws[w].children| && AllDelimitable(ws)
    ensures EntriesOk(ChildrenEntries(ws, w, generation, k))
    decreases |ws| - w, 0, |ws[w].children| - k
  {
    if k < |ws[w].children| {
      assert Linked(ws, w);
      EntriesDelimitable(ws, ws[w].children[k], generation, k);
      ChildrenEntriesDelimitable(ws, w, generation, k + 1);
      EntriesOkAppend(Entries(ws, ws[w].children[k], generation, k), ChildrenEntries(ws, w, generation, k + 1));
    }
  }

  /** A reader that takes each payload up to its "//" recovers the kind and
      the generation of every widget, in the order to_binary writes them. */
  lemma CorrectedReadBack(ws: seq<Widget>, w: nat, generation: nat, countBrother: nat)
    requires WellFormed(ws) && w < |ws| && AllDelimitable(ws)
    ensures ReadRecords(Encoding(ws, w, generation, countBrother)) == Some(Entries(ws, w, generation, countBrother))
  {
    EncodingIsText(ws, w, generation, countBrother);
    EntriesDelimitable(ws, w, generation, countBrother);
    ReadRecordsText(Entries(ws, w, generation, countBrother));
  }

  // ---------------------------------------------------------------------
  // from_binary as written

  /** The title loop of from_binary: it starts on the class code and, while
      neither the current nor the next character is '/', steps forward and
      appends the new current character. Ends on the last character read. */
  function ScanTitle(data: string, number: nat, title: string): (r: Result<(nat, string)>)
    requires number < |data|
    ensures r.Ok? ==> number <= r.value.0 < |data|
    decreases |data| - number
  {
    if data[number] == '/' then Ok((number, title))
    else if number + 1 >= |data| then Error
    else if data[number + 1] == '/' then Ok((number, title))
    else ScanTitle(data, number + 1, title + [data[number + 1]])
  }

  /** The max_length loop: while neither the current nor the next character
      is '/', it appends the current character and steps forward. */
  function ScanMaxLength(data: string, number: nat, maxLength: string): (r: Result<(nat, string)>)
    requires number < |data|
    ensures r.Ok? ==> number <= r.value.0 < |data|
    decreases |data| - number
  {
    if data[number] == '/' then Ok((number, maxLength))
    else if number + 1 >= |data| then Error
    else if data[number + 1] == '/' then Ok((number, maxLength))
    else ScanMaxLength(data, number + 1, maxLength + [data[number]])
  }

  /** The inner items loop: characters up to the next '/'. */
  function ScanItem(data: string, number: nat, item: string): (r: Result<(nat, string)>)
    requires number < |data|
    ensures r.Ok? ==> number <= r.value.0 < |data| && data[r.value.0] == '/'
    decreases |data| - number
  {
    if data[number] == '/' then Ok((number, item))
    else if number + 1 >= |data| then Error
    else ScanItem(data, number + 1, item + [data[number]])
  }

  /** The outer items loop: items separated by single '/' until a '/'
      preceded by '/'. Ends on the second '/' of the "//". */
  function ScanItems(data: string, number: nat, items: seq<string>): (r: Result<(nat, seq<string>)>)
    requires 1 <= number < |data|
    ensures r.Ok? ==> number <= r.value.0 < |data| && data[r.value.0] == '/' && data[r.value.0 - 1] == '/'
    decreases |data| - number
  {
    if data[number] == '/' && data[number - 1] == '/' then Ok((number, items))
    else
      var item := ScanItem(data, number, "");
      if item.Error? || item.value.0 + 1 >= |data| then Error
      else ScanItems(data, item.value.0 + 1, items + [item.value.1])
  }

  /** The title loop on a main window record "0" + g + "/" ... stops after
      one step: the title read back is the generation digit g. */
  lemma TitleIsGenerationDigit(data: string, g: char)
    requires |data| >= 3 && data[0] == '0' && data[1] == g && g != '/' && data[2] == '/'
    ensures ScanTitle(data, 0, "") == Ok((1, [g]))
  {
    assert "" + [data[1]] == [g];
  }

  /** On a payload `rest` without '/' followed by '/', the max_length loop
      stops on the last character of the payload without appending it. */
  lemma {:induction false} MaxLengthDropsLastChar(data: string, number: nat, acc: string, rest: string)
    requires |rest| >= 1 && number + |rest| < |data| && data[number..number + |rest|] == rest
    requires '/' !in rest && data[number + |rest|] == '/'
    ensures ScanMaxLength(data, number, acc) == Ok((number + |rest| - 1, acc + rest[..|rest| - 1]))
    decreases |rest|
  {
    assert data[number] == rest[0];
    if |rest| == 1 {
      assert acc + rest[..0] == acc;
    } else {
      assert data[number + 1] == rest[1] && rest[1] in rest;
      assert data[number + 1..number + |rest|] == rest[1..];
      assert '/' !in rest[1..];
      MaxLengthDropsLastChar(data, number + 1, acc + [rest[0]], rest[1..]);
      assert acc + [rest[0]] + rest[1..][..|rest| - 2] == acc + rest[..|rest| - 1];
    }
  }

  function Sum(s: seq<nat>): nat
  {
    if s == [] then 0 else Sum(s[..|s| - 1]) + s[|s| - 1]
  }

  /** history and buf_generation after widget `select` is created by one
      case of the match: a main window (h_buf -1) is appended; any other
      widget is inserted at 1 + buf_generation[h_buf] + sum(buf_generation[:h_buf]),
      after a LineEdit or ComboBox has extended a buf_generation one entry
      short by 0; buf_generation[h_buf] raises IndexError when it is still
      too short. */
  function Entered(kind: Kind, hBuf: int, history: seq<nat>, bufGeneration: seq<nat>, select: nat): (r: Result<(seq<nat>, seq<nat>)>)
    requires hBuf < |history|
    ensures r.Error? <==> 0 <= hBuf && hBuf >= |bufGeneration| && (kind.Layout? || hBuf > |bufGeneration|)
    ensures r.Ok? ==> |r.value.0| == |history| + 1 && multiset(r.value.0) == multiset(history) + multiset{select}
    ensures r.Ok? ==> r.value.0[0] == if history == [] then select else history[0]
    ensures r.Ok? && hBuf >= 0 ==> select in r.value.0 && |r.value.1| == (if hBuf < |bufGeneration| then |bufGeneration| else hBuf + 1)
  {
    if hBuf < 0 then Ok((history + [select], bufGeneration))
    else
      var g := Extended(kind, hBuf, bufGeneration);
      if hBuf >= |g| then Error
      else Ok((Insert(history, 1 + g[hBuf] + Sum(g[..hBuf]), select), g))
  }

  /** buf_generation after a LineEdit or ComboBox with parent index h_buf
      has appended 0 to a buf_generation one entry short. */
  function Extended(kind: Kind, hBuf: int, bufGeneration: seq<nat>): (g: seq<nat>)
    ensures g == bufGeneration || (!kind.Layout? && |bufGeneration| < hBuf + 1 && g == bufGeneration + [0])
  {
    if !kind.Layout? && |bufGeneration| < hBuf + 1 then bufGeneration + [0] else bufGeneration
  }

  /** The end of every record in from_binary: the parent's entry of
      buf_generation counts the new child, and a buf_generation one entry
      short is extended by 1 for it. A main window (h_buf -1) changes
      nothing. */
  function Counted(hBuf: int, bufGeneration: seq<nat>): (g: seq<nat>)
    ensures hBuf < 0 ==> g == bufGeneration
    ensures |g| >= |bufGeneration|
    ensures 0 <= hBuf <= |bufGeneration| ==>
      (|g| == (if hBuf < |bufGeneration| then |bufGeneration| else hBuf + 1) &&
       g[hBuf] == (if hBuf < |bufGeneration| then bufGeneration[hBuf] + 1 else 1))
    ensures forall i :: 0 <= i < |bufGeneration| && i != hBuf ==> g[i] == bufGeneration[i]
  {
    if |bufGeneration| < hBuf + 1 then bufGeneration + [1]
    else if hBuf >= 0 then bufGeneration[hBuf := bufGeneration[hBuf] + 1]
    else bufGeneration
  }

  /** The bookkeeping as the Layout case evidently intends it: like a
      LineEdit or ComboBox, a layout whose parent has no buf_generation
      entry yet gets one, set to 0, before its position is computed. */
  function CorrectedEntered(hBuf: int, history: seq<nat>, bufGeneration: seq<nat>, select: nat): (r: Result<(seq<nat>, seq<nat>)>)
    requires hBuf < |history|
    ensures r.Error? <==> 0 <= hBuf && hBuf > |bufGeneration|
    ensures r.Ok? ==> |r.value.0| == |history| + 1 && multiset(r.value.0) == multiset(history) + multiset{select}
    ensures r.Ok? && hBuf >= 0 ==> |r.value.1| == (if hBuf < |bufGeneration| then |bufGeneration| else hBuf + 1)
  {
    if hBuf < 0 then Ok((history + [select], bufGeneration))
    else
      var g := if |bufGeneration| < hBuf + 1 then bufGeneration + [0] else bufGeneration;
      if hBuf >= |g| then Error
      else Ok((Insert(history, 1 + g[hBuf] + Sum(g[..hBuf]), select), g))
  }

  /** The correction changes the Layout case only: every other kind is
      entered as before, and a layout differs only where from_binary as
      written raises. */
  lemma CorrectedEnteredAgrees(kind: Kind, hBuf: int, history: seq<nat>, bufGeneration: seq<nat>, select: nat)
    requires hBuf < |history|
    ensures !kind.Layout? ==> CorrectedEntered(hBuf, history, bufGeneration, select) == Entered(kind, hBuf, history, bufGeneration, select)
    ensures Entered(kind, hBuf, history, bufGeneration, select).Ok? ==>
      CorrectedEntered(hBuf, history, bufGeneration, select) == Entered(kind, hBuf, history, bufGeneration, select)
  {
  }

  /** from_binary as written on "00/AB//10/1//11/1//": a main window m, a
      layout l under it, then a layout l2 under l. The title loop stops at
      index 1, so the cursor moves to 4 (no class code), then to 7 (the
      first layout, parent digit 0, alignment at 10) and to 13 (the second
      layout, parent digit 1, alignment at 16). After the first layout
      buf_generation is [1], and the second layout's buf_generation[1]
      raises IndexError. */
  lemma NestedLayoutFails(m: nat, l: nat, l2: nat)
    ensures var data := NESTED_LAYOUTS;
      ScanTitle(data, 0, "") == Ok((1, "0")) && data[1 + 3] !in "0123" &&
      data[4 + 3] == '1' && ParentDigit(data, 7) == Some(0) && DigitValue(data[7 + 3]) == Some(1) &&
      data[10 + 3] == '1' && ParentDigit(data, 13) == Some(1) && DigitValue(data[13 + 3]) == Some(1)
    ensures Counted(-1, [0]) == [0]
    ensures Entered(Layout(Horizontal), 0, [m], [0], l) == Ok(([m, l], [0])) && Counted(0, [0]) == [1]
    ensures Entered(Layout(Horizontal), 1, [m, l], [1], l2) == Error
  {
    NestedLayoutsCursor();
    InsertAtEnd([m], l);
    assert [0][..0] == [] && [m] + [l] == [m, l];
  }

  const NESTED_LAYOUTS: string := "00/AB//10/1//11/1//"

  /** The records the cursor meets in NESTED_LAYOUTS. */
  lemma NestedLayoutsCursor()
    ensures var data := NESTED_LAYOUTS;
      ScanTitle(data, 0, "") == Ok((1, "0")) && data[1 + 3] !in "0123" &&
      data[4 + 3] == '1' && ParentDigit(data, 7) == Some(0) && DigitValue(data[7 + 3]) == Some(1) &&
      data[10 + 3] == '1' && ParentDigit(data, 13) == Some(1) && DigitValue(data[13 + 3]) == Some(1)
  {
    var data := NESTED_LAYOUTS;
    assert |data| == 19 && data[0] == '0' && data[1] == '0' && data[2] == '/' && data[4] == 'B';
    assert data[7] == '1' && data[8] == '0' && data[10] == '1' && data[13] == '1' && data[14] == '1' && data[16] == '1';
    assert "" + [data[1]] == "0";
    assert ScanTitle(data, 1, "0") == Ok((1, "0"));
  }

  /** With the correction the same text NESTED_LAYOUTS reads back:
      l2 is inserted right after its parent l, and buf_generation gains an
      entry for l. */
  lemma CorrectedNestedLayout(m: nat, l: nat, l2: nat)
    ensures CorrectedEntered(0, [m], [0], l) == Ok(([m, l], [0]))
    ensures CorrectedEntered(1, [m, l], [1], l2) == Ok(([m, l, l2], [1, 0]))
  {
    InsertAtEnd([m], l);
    assert [0][..0] == [] && [m] + [l] == [m, l];
    InsertAtEnd([m, l], l2);
    assert [m, l] + [l2] == [m, l, l2];
    assert [1] + [0] == [1, 0] && [1, 0][..1] == [1] && [1][..0] == [] && Sum([1]) == 1;
  }

  /** list.insert at len(xs) or beyond appends. */
  lemma InsertAtEnd(xs: seq<nat>, x: nat)
    ensures forall i: nat :: i >= |xs| ==> Insert(xs, i, x) == xs + [x]
  {
    assert xs[..|xs|] == xs && xs[|xs|..] == [];
  }

  /** list.insert(i, x) for i >= 0: an index past the end appends. */
  function Insert(xs: seq<nat>, i: nat, x: nat): (r: seq<nat>)
    ensures |r| == |xs| + 1 && multiset(r) == multiset(xs) + multiset{x}
    ensures forall y :: y in r <==> y in xs || y == x
    ensures i >= 1 && xs != [] ==> r[0] == xs[0]
    ensures var j := if i < |xs| then i else |xs|;
      r[..j] == xs[..j] && r[j] == x && r[j + 1..] == xs[j..]
  {
    var j := if i < |xs| then i else |xs|;
    assert xs == xs[..j] + xs[j..];
    xs[..j] + [x] + xs[j..]
  }

  /** The arena after Widget.__init__ creates a widget of the given kind:
      the new widget comes last and is appended to its parent's children. */
  function Attached(ws: seq<Widget>, kind: Kind, parent: Option<nat>): (r: seq<Widget>)
    requires parent.Some? ==> parent.value < |ws|
    ensures |r| == |ws| + 1 && r[|ws|] == Widget(kind, parent, [])
    ensures forall i :: 0 <= i < |ws| ==> r[i].kind == ws[i].kind && r[i].parent == ws[i].parent
    ensures forall i :: 0 <= i < |ws| && Some(i) != parent ==> r[i] == ws[i]
    ensures parent.Some? ==> r[parent.value].children == ws[parent.value].children + [|ws|]
  {
    var w := Widget(kind, parent, []);
    if parent.Some? then
      var p := parent.value;
      ws[p := ws[p].(children := ws[p].children + [|ws|])] + [w]
    else ws + [w]
  }

  /** Creating a widget keeps the arena well formed. */
  lemma AttachedWellFormed(ws: seq<Widget>, kind: Kind, parent: Option<nat>)
    requires WellFormed(ws) && (parent.Some? ==> parent.value < |ws|)
    requires kind.MainWindow? ==> parent.None?
    ensures WellFormed(Attached(ws, kind, parent))
  {
    var r := Attached(ws, kind, parent);
    forall i | 0 <= i < |r|
      ensures Linked(r, i)
    {
      if i < |ws| {
        assert Linked(ws, i);
        if Some(i) == parent {
          var cs := r[i].children;
          assert cs == ws[i].children + [|ws|];
          forall k | 0 <= k < |cs|
            ensures i < cs[k] < |r| && r[cs[k]].parent == Some(i)
          {
            if k < |ws[i].children| {
              assert cs[k] == ws[i].children[k];
            }
          }
        }
        if r[i].parent.Some? {
          var q := r[i].parent.value;
          assert q == ws[i].parent.value && i in ws[q].children;
          assert ws[q].children <= r[q].children;
        }
      }
    }
  }

  class Gui {
    /** Every widget object created so far, in creation order. */
    var widgets: seq<Widget>

    ghost predicate Valid()
      reads this
    {
      WellFormed(widgets)
    }

    constructor ()
      ensures Valid() && widgets == []
    {
      widgets := [];
    }

    /** add_children(children): appends to the list of widget p. */
    method AddChildren(p: nat, children: nat)
      requires p < |widgets|
      modifies this
      ensures widgets == old(widgets)[p := old(widgets)[p].(children := old(widgets)[p].children + [children])]
    {
      widgets := widgets[p := widgets[p].(children := widgets[p].children + [children])];
    }

    /** Widget.__init__(parent) together with the subclass constructor that
        stores the kind's attribute; MainWindow passes parent None. */
    method NewWidget(kind: Kind, parent: Option<nat>) returns (id: nat)
      requires Valid() && (parent.Some? ==> parent.value < |widgets|)
      requires kind.MainWindow? ==> parent.None?
      modifies this
      ensures Valid() && id == old(|widgets|)
      ensures widgets == Attached(old(widgets), kind, parent)
    {
      AttachedWellFormed(widgets, kind, parent);
      ghost var before := widgets;
      id := |widgets|;
      widgets := widgets + [Widget(kind, parent, [])];
      if parent.Some? {
        AddChildren(parent.value, id);
      }
      assert widgets == Attached(before, kind, parent);
    }

    /** The part of to_binary before the children loop: the record of one
        widget and the generation its children receive. */
    static method Record(kind: Kind, generation: nat, countBrother: nat) returns (result: string, childGeneration: nat)
      ensures result == RecordText(kind, generation) && childGeneration == ChildGeneration(kind, generation, countBrother)
    {
      result := [Code(kind)] + NatToString(generation) + "/";
      childGeneration := generation;
      match kind {
        case MainWindow(title) =>
          result := result + title;
        case Layout(a) =>
          result := result + (if a == Horizontal then "1" else "2");
          childGeneration := generation + 1 + countBrother;
        case LineEdit(m) =>
          result := result + IntToString(m);
          childGeneration := generation + 1 + countBrother;
        case ComboBox(items) =>
          result := result + Join(items);
          childGeneration := generation + 1 + countBrother;
      }
      result := result + "//";
    }

    /** to_binary(generation, count_brother), looping over the children. */
    method ToBinary(w: nat, generation: nat := 0, countBrother: nat := 0) returns (result: string)
      requires Valid() && w < |widgets|
      ensures result == Encoding(widgets, w, generation, countBrother)
      decreases |widgets| - w
    {
      var childGeneration;
      result, childGeneration := Record(widgets[w].kind, generation, countBrother);
      assert Linked(widgets, w);
      var children := widgets[w].children;
      for i := 0 to |children|
        invariant result + ChildrenEncoding(widgets, w, childGeneration, i) == Encoding(widgets, w, generation, countBrother)
      {
        assert w < children[i] < |widgets|;
        var child := ToBinary(children[i], childGeneration, i);
        ChildrenEncodingStep(widgets, w, childGeneration, i, result, child);
        result := result + child;
      }
    }

    /** for i in range(h_buf): position += buf_generation[i], starting from
        1 + buf_generation[h_buf]. */
    static method InsertPosition(bufGeneration: seq<nat>, hBuf: nat) returns (position: nat)
      requires hBuf < |bufGeneration|
      ensures position == 1 + bufGeneration[hBuf] + Sum(bufGeneration[..hBuf])
    {
      position := 1 + bufGeneration[hBuf];
      for i := 0 to hBuf
        invariant position == 1 + bufGeneration[hBuf] + Sum(bufGeneration[..i])
      {
        assert bufGeneration[..i + 1][..i] == bufGeneration[..i];
        position := position + bufGeneration[i];
      }
    }
  
    /** The widgets from n0 on were created by one from_binary call: the
        arena is well formed and none of them is a child of an older widget. */
    ghost predicate Grown(n0: nat)
      reads this
    {
      Valid() && n0 <= |widgets| &&
      forall i :: n0 <= i < |widgets| && widgets[i].parent.Some? ==> n0 <= widgets[i].parent.value
    }

    /** `history` lists exactly the widgets created from n0 on, the first of
        them, a main window without parent, in front. */
    ghost predicate Loaded(n0: nat, history: seq<nat>)
      reads this
    {
      Grown(n0) && |history| == |widgets| - n0 && (forall x :: x in history ==> n0 <= x < |widgets|) &&
      (history != [] ==> history[0] == n0 && widgets[n0].kind.MainWindow? && widgets[n0].parent.None?)
    }

    /** The end of one case of the match: the widget is created (with parent
        history[h_buf] unless it is a main window), then a main window is
        appended to history and any other widget inserted at the position
        buf_generation gives, after a LineEdit or ComboBox has extended a
        buf_generation one entry short. */
    method Place(ghost n0: nat, kind: Kind, hBuf: int, history: seq<nat>, bufGeneration: seq<nat>)
      returns (r: Result<(seq<nat>, seq<nat>)>)
      requires Loaded(n0, history) && -1 <= hBuf < |history| && (hBuf == -1 <==> kind.MainWindow?)
      modifies this
      ensures Grown(n0) && widgets[..n0] == old(widgets)[..n0]
      ensures r.Ok? ==> Loaded(n0, r.value.0)
      ensures r.Ok? ==> |r.value.0| == |history| + 1 && multiset(r.value.0) == multiset(history) + multiset{old(|widgets|) as nat}
      ensures hBuf >= 0 ==> history[hBuf] < old(|widgets|)
      ensures widgets == Attached(old(widgets), kind, if hBuf >= 0 then Some(history[hBuf]) else None)
      ensures r == Entered(kind, hBuf, history, bufGeneration, old(|widgets|))
    {
      ghost var ws := widgets;
      var parent: Option<nat> := None;
      if hBuf >= 0 {
        assert history[hBuf] in history;
        parent := Some(history[hBuf]);
      }
      var select := NewWidget(kind, parent);
      AttachedKeepsPrefix(ws, kind, parent, n0);
      r := Enter(kind, hBuf, history, bufGeneration, select);
    }

    /** The end of one case of the match after the widget is created: the
        history bookkeeping Entered describes, with the position loop. */
    static method Enter(kind: Kind, hBuf: int, history: seq<nat>, bufGeneration: seq<nat>, select: nat)
      returns (r: Result<(seq<nat>, seq<nat>)>)
      requires hBuf < |history|
      ensures r == Entered(kind, hBuf, history, bufGeneration, select)
    {
      if hBuf < 0 {
        return Ok((history + [select], bufGeneration));
      }
      var generations := Extended(kind, hBuf, bufGeneration);
      if hBuf >= |generations| {
        return Error;
      }
      var position := InsertPosition(generations, hBuf);
      r := Ok((Insert(history, position, select), generations));
    }

    /** from_binary(data): reads the records from position 0 on, creating a
        widget per recognised record, placing it in `history` by the
        bookkeeping of buf_generation, and finally returns history[0]. The
        tail call on the rest of the data is the loop. */
    method FromBinary(data: string) returns (r: Result<nat>)
      requires Valid()
      modifies this
      ensures Grown(old(|widgets|)) && widgets[..old(|widgets|)] == old(widgets)
      ensures r.Ok? ==> r.value == old(|widgets|) < |widgets| && widgets[r.value].kind.MainWindow? && widgets[r.value].parent.None?
      ensures data == [] ==> r.Error?
    {
      ghost var n0 := |widgets|;
      if data == [] {
        return Error;
      }
      var number: nat := 0;
      var history: seq<nat> := [];
      var bufGeneration: seq<nat> := [0];
      while number < |data|
        invariant Loaded(n0, history) && widgets[..n0] == old(widgets)
        decreases |data| - number
      {
        var record := ReadKind(data, number, |history|);
        if record.Error? {
          return Error;
        }
        var (kind, hBuf, next) := record.value;
        number := next;
        if kind.Some? {
          var placed := Place(n0, kind.value, hBuf, history, bufGeneration);
          if placed.Error? {
            return Error;
          }
          history, bufGeneration := placed.value.0, placed.value.1;
        }
        number := number + 3;
        bufGeneration := Counted(hBuf, bufGeneration);
      }
      if history == [] {
        return Error;
      }
      r := Ok(history[0]);
    }
  }

  /** One case of the match in from_binary: the record starting at `number`
      read as far as the widget it describes, with the parent's index in
      history (h_buf, -1 for a main window) and the position reached (for a
      combo box already moved back by two, as the source does after the
      insert). A class code other than 0-3 matches no case. */
  method ReadKind(data: string, number: nat, historySize: nat) returns (r: Result<(Option<Kind>, int, nat)>)
    requires number < |data|
    ensures r.Ok? ==> number <= r.value.2 && -1 <= r.value.1 < historySize
    ensures r.Ok? ==> (r.value.1 == -1 <==> r.value.0.None? || r.value.0.value.MainWindow?)
    ensures r.Ok? && r.value.0.Some? ==> data[number] == Code(r.value.0.value)
    ensures r.Ok? && r.value.0.None? ==> data[number] !in "0123"
    ensures data[number] == '0' ==> r == (var t := ScanTitle(data, number, ""); if t.Error? then Error else Ok((Some(MainWindow(t.value.1)), -1, t.value.0)))
    ensures data[number] == '1' ==>
      r ==
      (var h := ParentDigit(data, number);
       if h.None? || number + 3 >= |data| || h.value >= historySize then Error
       else var a := DigitValue(data[number + 3]);
         if a == Some(1) then Ok((Some(Layout(Horizontal)), h.value as int, number + 3))
         else if a == Some(2) then Ok((Some(Layout(Vertical)), h.value as int, number + 3))
         else Error)
    ensures data[number] == '2' ==>
      r ==
      (var h := ParentDigit(data, number);
       if h.None? || number + 3 >= |data| then Error
       else var m := ScanMaxLength(data, number + 3, "");
         if m.Error? || h.value >= historySize || ParseInt(m.value.1).None? then Error
         else Ok((Some(LineEdit(ParseInt(m.value.1).value)), h.value as int, m.value.0)))
    ensures data[number] == '3' ==>
      r ==
      (var h := ParentDigit(data, number);
       if h.None? || number + 3 >= |data| then Error
       else var s := ScanItems(data, number + 3, []);
         if s.Error? || h.value >= historySize then Error
         else Ok((Some(ComboBox(s.value.1)), h.value as int, s.value.0 - 2)))
  {
    var classCode := data[number];
    if classCode == '0' {
      var title := ReadTitle(data, number);
      if title.Error? {
        return Error;
      }
      return Ok((Some(MainWindow(title.value.1)), -1, title.value.0));
    } else if classCode !in "123" {
      return Ok((None, -1, number));
    }
    var n := number + 1;
    if n >= |data| || DigitValue(data[n]).None? {
      return Error;
    }
    var hBuf := DigitValue(data[n]).value;
    n := n + 2;
    if n >= |data| {
      return Error;
    }
    if classCode == '1' {
      var alignment := DigitValue(data[n]);
      if hBuf >= historySize || alignment.None? || !(alignment.value == 1 || alignment.value == 2) {
        return Error;
      }
      return Ok((Some(Layout(if alignment.value == 1 then Horizontal else Vertical)), hBuf, n));
    } else if classCode == '2' {
      var maxLength := ReadMaxLength(data, n);
      if maxLength.Error? {
        return Error;
      }
      var m := ParseInt(maxLength.value.1);
      if hBuf >= historySize || m.None? {
        return Error;
      }
      return Ok((Some(LineEdit(m.value)), hBuf, maxLength.value.0));
    } else {
      var items := ReadItems(data, n);
      if items.Error? || hBuf >= historySize {
        return Error;
      }
      return Ok((Some(ComboBox(items.value.1)), hBuf, items.value.0 - 2));
    }
  }

  /** h_buf = int(data[number + 1]): the parent's index in history, a
      single decimal digit; None where `int` raises or the data ends. */
  function ParentDigit(data: string, number: nat): (h: Option<nat>)
    ensures h.Some? ==> number + 1 < |data| && h.value < 10 && DIGITS[h.value] == data[number + 1]
    ensures number + 1 < |data| && '0' <= data[number + 1] <= '9' ==> h.Some?
  {
    if number + 1 < |data| then DigitValue(data[number + 1]) else None
  }

  /** Creating a widget whose parent is not among the first n widgets
      leaves those widgets as they were. */
  lemma AttachedKeepsPrefix(ws: seq<Widget>, kind: Kind, parent: Option<nat>, n: nat)
    requires n <= |ws| && (parent.Some? ==> n <= parent.value < |ws|)
    ensures Attached(ws, kind, parent)[..n] == ws[..n]
  {
  }

  /** The title loop of from_binary (its state: number, buf, title). */
  method ReadTitle(data: string, number: nat) returns (r: Result<(nat, string)>)
    requires number < |data|
    ensures r == ScanTitle(data, number, "")
  {
    var n := number;
    var buf := data[n];
    var title := "";
    while true
      invariant n < |data| && buf == data[n]
      invariant ScanTitle(data, n, title) == ScanTitle(data, number, "")
      decreases |data| - n
    {
      if buf == '/' {
        break;
      }
      if n + 1 >= |data| {
        return Error;
      }
      if data[n + 1] == '/' {
        break;
      }
      n := n + 1;
      buf := data[n];
      title := title + [buf];
    }
    r := Ok((n, title));
  }

  /** The max_length loop of from_binary. */
  method ReadMaxLength(data: string, number: nat) returns (r: Result<(nat, string)>)
    requires number < |data|
    ensures r == ScanMaxLength(data, number, "")
  {
    var n := number;
    var buf := data[n];
    var maxLength := "";
    while true
      invariant n < |data| && buf == data[n]
      invariant ScanMaxLength(data, n, maxLength) == ScanMaxLength(data, number, "")
      decreases |data| - n
    {
      if buf == '/' {
        break;
      }
      if n + 1 >= |data| {
        return Error;
      }
      if data[n + 1] == '/' {
        break;
      }
      maxLength := maxLength + [buf];
      n := n + 1;
      buf := data[n];
    }
    r := Ok((n, maxLength));
  }

  /** The nested items loops of from_binary. */
  method ReadItems(data: string, number: nat) returns (r: Result<(nat, seq<string>)>)
    requires 1 <= number < |data|
    ensures r == ScanItems(data, number, [])
  {
    var n := number;
    var buf := data[n];
    var items: seq<string> := [];
    while !(buf == '/' && data[n - 1] == '/')
      invariant number <= n < |data| && buf == data[n]
      invariant ScanItems(data, n, items) == ScanItems(data, number, [])
      decreases |data| - n
    {
      ghost var first := n;
      var item := "";
      while buf != '/'
        invariant first <= n < |data| && buf == data[n]
        invariant ScanItem(data, n, item) == ScanItem(data, first, "")
        decreases |data| - n
      {
        item := item + [buf];
        if n + 1 >= |data| {
          return Error;
        }
        n := n + 1;
        buf := data[n];
      }
      items := items + [item];
      if n + 1 >= |data| {
        return Error;
      }
      n := n + 1;
      buf := data[n];
    }
    r := Ok((n, items));
  }
}
