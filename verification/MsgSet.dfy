/** Message sets as the library reads them (mu_msgset_parse_imap), with the numbers drawn
    into the mailbox and UIDs translated to numbers, and what they mean. */
module MsgSet {
  import opened Common

  /** A range of numbers; without a mailbox, an end of zero stands for `*`. */
  datatype Range = Range(beg: nat, end: nat)

  /** What a set is read for: a set without a mailbox; numbers in a mailbox of so many
      messages; or the UIDs of the messages of a mailbox, in order. */
  datatype Where = Unbound | Numbers(last: nat) | Uids(uids: seq<nat>)

  predicate Ascending(uids: seq<nat>) {
    && (forall i :: 0 <= i < |uids| ==> uids[i] > 0)
    && forall i, j :: 0 <= i < j < |uids| ==> uids[i] < uids[j]
  }

  predicate IsEmpty(w: Where) {
    (w.Numbers? && w.last == 0) || (w.Uids? && w.uids == [])
  }

  function MinVal(w: Where): nat {
    if w.Uids? && w.uids != [] then w.uids[0] else 1
  }

  function MaxVal(w: Where): nat {
    match w
    case Unbound => 0
    case Numbers(last) => last
    case Uids(uids) => if uids == [] then 0 else uids[|uids| - 1]
  }

  // ---------- UIDs to numbers ----------

  /** mu_mailbox_translate: the number of the message with a UID */
  function NumberOfUid(uids: seq<nat>, uid: nat): (n: Option<nat>)
    ensures n.Some? ==> 1 <= n.value <= |uids| && uids[n.value - 1] == uid
    ensures n.None? <==> uid !in uids
  {
    if uids == [] then None
    else if uids[|uids| - 1] == uid then Some(|uids|)
    else NumberOfUid(uids[..|uids| - 1], uid)
  }

  /** The first UID in use from `beg` on, up to `end`. */
  function FirstFrom(uids: seq<nat>, beg: nat, end: nat): (u: Option<nat>)
    ensures u.Some? ==> beg <= u.value <= end && u.value in uids
    ensures u.Some? ==> forall v :: beg <= v < u.value ==> v !in uids
    ensures u.None? ==> forall v :: beg <= v <= end ==> v !in uids
    decreases end + 1 - beg
  {
    if beg > end then None else if beg in uids then Some(beg) else FirstFrom(uids, beg + 1, end)
  }

  /** The last UID in use from `end` down, above `beg`. */
  function LastDown(uids: seq<nat>, beg: nat, end: nat): (u: Option<nat>)
    ensures u.Some? ==> beg < u.value <= end && u.value in uids
    ensures u.Some? ==> forall v :: u.value < v <= end ==> v !in uids
    ensures u.None? ==> forall v :: beg < v <= end ==> v !in uids
    decreases end
  {
    if end <= beg then None else if end in uids then Some(end) else LastDown(uids, beg, end - 1)
  }

  /** The end of the range, once it starts at message `n`; `beg` is where the search for
      the start stopped. */
  function TranslateEnd(uids: seq<nat>, beg: nat, n: nat, end: nat): Option<Range> {
    if beg == end then Some(Range(n, n))
    else
      match NumberOfUid(uids, end)
      case Some(m) => Some(Range(n, m))
      case None =>
        match LastDown(uids, beg, end)
        case None => None
        case Some(u) => Some(Range(n, NumberOfUid(uids, u).value))
  }

  /** None when the translation fails, and with it the whole set. */
  function Translate(uids: seq<nat>, r: Range): Option<Range> {
    match NumberOfUid(uids, r.beg)
    case Some(n) => TranslateEnd(uids, r.beg, n, r.end)
    case None =>
      match FirstFrom(uids, r.beg, r.end)
      case None => None
      case Some(u) => TranslateEnd(uids, u + 1, NumberOfUid(uids, u).value, r.end)
  }

  /** _mu_msgset_translate_pair, from UIDs to numbers, on a range with an end */
  method TranslatePair(uids: seq<nat>, r: Range) returns (t: Option<Range>)
    requires 0 < r.beg <= r.end
    ensures t == Translate(uids, r)
  {
    hide NumberOfUid;
    var beg: nat, end: nat := r.beg, r.end;
    var n := NumberOfUid(uids, beg);
    if n.None? {
      while n.None? && beg <= end
        invariant r.beg <= beg <= end + 1
        invariant n.None? ==> FirstFrom(uids, r.beg, end) == FirstFrom(uids, beg, end)
        invariant n.Some? ==> r.beg < beg && FirstFrom(uids, r.beg, end) == Some(beg - 1)
        invariant n.Some? ==> n == NumberOfUid(uids, beg - 1)
        decreases end + 1 - beg, n.None?
      {
        n := NumberOfUid(uids, beg);
        beg := beg + 1;
      }
      if n.None? {
        return None;
      }
    }
    var pbeg := n.value;
    if beg == end {
      return Some(Range(pbeg, pbeg));
    }
    n := NumberOfUid(uids, end);
    if n.None? {
      while n.None? && beg < end
        invariant end <= r.end
        invariant n.None? ==> LastDown(uids, beg, r.end) == LastDown(uids, beg, end)
        invariant n.Some? ==> LastDown(uids, beg, r.end) == Some(end + 1) && n == NumberOfUid(uids, end + 1)
        decreases end, n.None?
      {
        n := NumberOfUid(uids, end);
        end := end - 1;
      }
      if n.None? {
        return None;
      }
    }
    t := Some(Range(pbeg, n.value));
  }

  /** The messages of the translated range are those whose UIDs are in the range. */
  ghost predicate Right(uids: seq<nat>, r: Range, t: Option<Range>) {
    t.Some? && forall i :: 0 <= i < |uids| ==> (t.value.beg <= i + 1 <= t.value.end <==> r.beg <= uids[i] <= r.end)
  }

  /** What the range must find in the mailbox to be translated rightly. */
  predicate Translatable(uids: seq<nat>, r: Range) {
    if r.beg in uids then r.beg == r.end || r.end in uids || LastDown(uids, r.beg, r.end).Some?
    else
      match FirstFrom(uids, r.beg, r.end)
      case None => false
      case Some(u) =>
        if u + 1 == r.end then r.end !in uids else r.end in uids || LastDown(uids, u + 1, r.end).Some?
  }

  /** A range of UIDs is translated rightly if and only if it finds its first UID in use,
      and its last one or another behind the first; or, where the search had to go on to
      find the first one, behind the next to it. */
  lemma TranslateExact(uids: seq<nat>, r: Range)
    requires Ascending(uids) && 0 < r.beg <= r.end
    ensures Right(uids, r, Translate(uids, r)) <==> Translatable(uids, r)
  {
    hide NumberOfUid, FirstFrom, LastDown;
    var t := Translate(uids, r);
    if t.Some? {
      var u := FirstFrom(uids, r.beg, r.end).value;
      assert r.beg in uids ==> u == r.beg;
      var n := NumberOfUid(uids, u).value;
      assert t.value.beg == n;
      if Translatable(uids, r) {
        EndRight(uids, r, t.value);
      } else {
        var m := NumberOfUid(uids, r.end).value;
        assert u < r.end && uids[m - 1] == r.end && t.value.end == n < m;
      }
    }
  }

  lemma EndRight(uids: seq<nat>, r: Range, t: Range)
    requires Ascending(uids) && 0 < r.beg <= r.end && Translate(uids, r) == Some(t) && Translatable(uids, r)
    ensures Right(uids, r, Some(t))
  {
    hide NumberOfUid, FirstFrom, LastDown;
    StartAt(uids, r, t);
    StopAt(uids, r, t);
  }

  /** The translated range starts at the first message with a UID in the range. */
  lemma StartAt(uids: seq<nat>, r: Range, t: Range)
    requires Ascending(uids) && 0 < r.beg <= r.end && Translate(uids, r) == Some(t)
    ensures 1 <= t.beg <= |uids| && r.beg <= uids[t.beg - 1] <= r.end
    ensures forall i :: 0 <= i < |uids| ==> (t.beg <= i + 1 <==> r.beg <= uids[i])
  {
    hide NumberOfUid, FirstFrom, LastDown;
    forall i | 0 <= i < |uids| ensures t.beg <= i + 1 <==> r.beg <= uids[i] {
      assert uids[i] in uids;
    }
  }

  /** Where it is right, it ends at the last one. */
  lemma StopAt(uids: seq<nat>, r: Range, t: Range)
    requires Ascending(uids) && 0 < r.beg <= r.end && Translate(uids, r) == Some(t) && Translatable(uids, r)
    ensures 1 <= t.end <= |uids|
    ensures forall i :: 0 <= i < |uids| ==> (i + 1 <= t.end <==> uids[i] <= r.end)
  {
    hide NumberOfUid, FirstFrom, LastDown;
    forall i | 0 <= i < |uids| ensures i + 1 <= t.end <==> uids[i] <= r.end {
      assert uids[i] in uids;
    }
  }

  /** Ranges that miss messages: one whose first UID is not in use misses its last, and
      one with a single UID in use that is neither its first nor its last fails. */
  lemma RangesLost()
    ensures Translate([1, 5, 6], Range(4, 6)) == Some(Range(2, 2))
    ensures Translate([1, 5, 9], Range(4, 7)) == None
  {
    assert FirstFrom([1, 5, 6], 4, 6) == Some(5);
    assert [1, 5, 6][..2] == [1, 5] && NumberOfUid([1, 5, 6], 5) == NumberOfUid([1, 5], 5) == Some(2);
    assert FirstFrom([1, 5, 9], 4, 7) == Some(5);
    assert LastDown([1, 5, 9], 6, 7) == None;
  }

  // ---------- reading a set ----------

  /** get_msgnum: a number, drawn between the least and the largest in use */
  function GetNumber(s: string, w: Where): (r: Option<(nat, string)>)
    ensures r.Some? ==> |r.value.1| <= |s|
  {
    var (n, end) := Strtoul(s);
    if OutOfRange(s) then None else Some((Drawn(n, w), s[end..]))
  }

  function Drawn(n: nat, w: Where): nat {
    var low := if n < MinVal(w) then MinVal(w) else n;
    if MaxVal(w) > 0 && low > MaxVal(w) then MaxVal(w) else low
  }

  /** A number or `*` */
  function GetEnd(s: string, w: Where): (r: Option<(nat, string)>)
    ensures r.Some? ==> |r.value.1| <= |s|
  {
    if C0(s) == '*' then Some((MaxVal(w), s[1..])) else GetNumber(s, w)
  }

  function Ordered(a: nat, b: nat): Range {
    if b > 0 && b < a then Range(b, a) else Range(a, b)
  }

  /** parse_msgrange: one range, and the text behind it */
  function ParseRange(s: string, w: Where): (r: Option<(Range, string)>)
    ensures r.Some? ==> |r.value.1| <= |s|
  {
    match GetEnd(s, w)
    case None => None
    case Some((a, rest)) =>
      if C0(rest) != ':' then Some((Ordered(a, a), rest))
      else if rest[1..] == [] then None
      else
        match GetEnd(rest[1..], w)
        case None => None
        case Some((b, more)) => Some((Ordered(a, b), more))
  }

  /** What is added to the set for a range; None when it is refused. */
  function Added(r: Range, w: Where): Option<seq<Range>> {
    if IsEmpty(w) then Some([])
    else if r.beg == 0 then None
    else if !w.Uids? then Some([r])
    else
      match Translate(w.uids, r)
      case None => None
      case Some(t) => Some([t])
  }

  datatype SetParse = Ranges(ranges: seq<Range>) | SyntaxError | Refused

  /** The ranges of the items before, in front of the rest. */
  function Behind(done: seq<Range>, p: SetParse): SetParse {
    match p
    case Ranges(more) => Ranges(done + more)
    case other => other
  }

  /** mu_msgset_parse_imap, from behind the test for an empty text */
  function ReadFrom(s: string, w: Where): SetParse
    decreases |s|
  {
    match ParseRange(s, w)
    case None => SyntaxError
    case Some((r, rest)) =>
      match Added(r, w)
      case None => Refused
      case Some(first) =>
        if rest == [] then Ranges(first)
        else if rest[0] != ',' || rest[1..] == [] then SyntaxError
        else Behind(first, ReadFrom(rest[1..], w))
  }

  function Read(s: string, w: Where): SetParse {
    if s == [] then SyntaxError else ReadFrom(s, w)
  }

  lemma BehindMore(done: seq<Range>, first: seq<Range>, p: SetParse)
    ensures Behind(done, Behind(first, p)) == Behind(done + first, p) && Behind([], p) == p
  {
    if p.Ranges? {
      AppendAssoc(done, first, p.ranges);
      assert [] + p.ranges == p.ranges;
    }
  }

  /** mu_msgset_parse_imap: the loop over the ranges of the text */
  method ParseImap(s: string, w: Where) returns (p: SetParse)
    ensures p == Read(s, w)
  {
    hide ParseRange, Added;
    if s == [] {
      return SyntaxError;
    }
    var rest, done: seq<Range> := s, [];
    BehindMore([], [], ReadFrom(s, w));
    while true
      invariant ReadFrom(s, w) == Behind(done, ReadFrom(rest, w))
      decreases |rest|
    {
      var range := ParseRange(rest, w);
      if range.None? {
        return SyntaxError;
      }
      var first := Added(range.value.0, w);
      if first.None? {
        return Refused;
      }
      var behind := range.value.1;
      if behind == [] {
        return Ranges(done + first.value);
      }
      if behind[0] != ',' || behind[1..] == [] {
        return SyntaxError;
      }
      assert ReadFrom(rest, w) == Behind(first.value, ReadFrom(behind[1..], w));
      BehindMore(done, first.value, ReadFrom(behind[1..], w));
      done := done + first.value;
      rest := behind[1..];
    }
  }

  predicate InRange(r: Range, n: nat) {
    r.beg <= n <= r.end
  }

  /** mu_msgset_locate */
  predicate Contains(rs: seq<Range>, n: nat) {
    exists i :: 0 <= i < |rs| && InRange(rs[i], n)
  }

  // ---------- the sets of section 9 of RFC 3501 ----------

  datatype Bound = Num(n: nat) | Star

  datatype Item = One(a: Bound) | Span(a: Bound, b: Bound)

  function BoundText(x: Bound): string {
    match x
    case Num(n) => Dec(n)
    case Star => "*"
  }

  function ItemText(x: Item): string {
    match x
    case One(a) => BoundText(a)
    case Span(a, b) => BoundText(a) + ":" + BoundText(b)
  }

  function SetText(items: seq<Item>): string {
    if items == [] then []
    else if |items| == 1 then ItemText(items[0])
    else ItemText(items[0]) + "," + SetText(items[1..])
  }

  predicate GoodBound(x: Bound) {
    x.Num? ==> 0 < x.n <= ULONG_MAX
  }

  predicate GoodItem(x: Item) {
    GoodBound(x.a) && (x.Span? ==> GoodBound(x.b))
  }

  predicate GoodSet(items: seq<Item>) {
    items != [] && forall i :: 0 <= i < |items| ==> GoodItem(items[i])
  }

  /** The number that a bound stands for as the library reads it. */
  function Bounded(x: Bound, w: Where): nat {
    match x
    case Num(n) => Drawn(n, w)
    case Star => MaxVal(w)
  }

  function ItemRange(x: Item, w: Where): Range {
    match x
    case One(a) => Ordered(Bounded(a, w), Bounded(a, w))
    case Span(a, b) => Ordered(Bounded(a, w), Bounded(b, w))
  }

  function AllAdded(items: seq<Item>, w: Where): SetParse {
    if items == [] then Ranges([])
    else
      match Added(ItemRange(items[0], w), w)
      case None => Refused
      case Some(first) => Behind(first, AllAdded(items[1..], w))
  }

  /** What may stand behind a bound. */
  predicate Stops(rest: string) {
    rest == [] || rest[0] == ',' || rest[0] == ':'
  }

  lemma BoundRead(x: Bound, rest: string, w: Where)
    requires GoodBound(x) && Stops(rest)
    ensures GetEnd(BoundText(x) + rest, w) == Some((Bounded(x, w), rest))
    ensures BoundText(x) != []
  {
    hide Strtoul, OutOfRange, Dec;
    var s := BoundText(x) + rest;
    match x {
      case Num(n) =>
        StrtoulDec(n, rest);
        assert IsDigit(Dec(n)[0]) && s[0] == Dec(n)[0];
        assert s[|Dec(n)|..] == rest;
      case Star =>
        assert s[0] == '*' && s[1..] == rest;
    }
  }

  lemma RangeRead(x: Item, rest: string, w: Where)
    requires GoodItem(x) && (rest == [] || rest[0] == ',')
    ensures ParseRange(ItemText(x) + rest, w) == Some((ItemRange(x, w), rest))
    ensures ItemText(x) != []
  {
    hide GetEnd, BoundText, Bounded;
    match x {
      case One(a) => BoundRead(a, rest, w);
      case Span(a, b) =>
        var more := BoundText(b) + rest;
        BoundRead(b, rest, w);
        BoundRead(a, ":" + more, w);
        assert ItemText(x) + rest == BoundText(a) + (":" + more);
        assert (":" + more)[1..] == more;
    }
  }

  /** The text of a set is read item by item. */
  lemma {:induction false} SetRead(items: seq<Item>, w: Where)
    requires GoodSet(items)
    ensures Read(SetText(items), w) == AllAdded(items, w)
  {
    hide ParseRange, Added, ItemRange, ItemText;
    if |items| == 1 {
      RangeRead(items[0], [], w);
      assert ItemText(items[0]) + [] == ItemText(items[0]);
      OneAdded(items, w);
    } else {
      var more := SetText(items[1..]);
      SetRead(items[1..], w);
      TextNotEmpty(items[1..]);
      RangeRead(items[0], "," + more, w);
      AppendAssoc(ItemText(items[0]), ",", more);
      assert SetText(items) == ItemText(items[0]) + ("," + more);
      assert ("," + more)[1..] == more;
    }
  }

  lemma TextNotEmpty(items: seq<Item>)
    requires GoodSet(items)
    ensures SetText(items) != []
  {
    RangeRead(items[0], [], Unbound);
  }

  lemma OneAdded(items: seq<Item>, w: Where)
    requires |items| == 1
    ensures AllAdded(items, w) == match Added(ItemRange(items[0], w), w)
                                  case None => Refused
                                  case Some(first) => Ranges(first)
  {
    hide Added, ItemRange;
    assert items[1..] == [] && AllAdded([], w) == Ranges([]);
    var a := Added(ItemRange(items[0], w), w);
    assert a.Some? ==> a.value + [] == a.value;
  }

  // ---------- what a set of numbers means ----------

  function Value(x: Bound, last: nat): nat {
    match x
    case Num(n) => n
    case Star => last
  }

  /** The numbers between the two bounds, in whichever order they stand. */
  predicate ItemDenotes(x: Item, last: nat, n: nat) {
    match x
    case One(a) => n == Value(a, last)
    case Span(a, b) => Value(a, last) <= n <= Value(b, last) || Value(b, last) <= n <= Value(a, last)
  }

  /** The set as section 9 of RFC 3501 defines it, in a mailbox of `last` messages. */
  predicate Denotes(items: seq<Item>, last: nat, n: nat) {
    exists i :: 0 <= i < |items| && ItemDenotes(items[i], last, n)
  }

  /** An item that lies behind the mailbox. */
  predicate Beyond(x: Item, last: nat) {
    Value(x.a, last) > last && (x.Span? ==> Value(x.b, last) > last)
  }

  predicate AnyBeyond(items: seq<Item>, last: nat) {
    exists i :: 0 <= i < |items| && Beyond(items[i], last)
  }

  lemma ItemExact(x: Item, last: nat, n: nat)
    requires GoodItem(x) && 1 <= n <= last
    ensures var r := ItemRange(x, Numbers(last));
            && 1 <= r.beg <= r.end && (InRange(r, n) <==> ItemDenotes(x, last, n) || (n == last && Beyond(x, last)))
  {
  }

  /** In a mailbox with messages a set of numbers is read as it is meant, and the last
      message besides if an item lies behind the mailbox. */
  lemma {:induction false} NumbersExact(items: seq<Item>, last: nat, n: nat)
    requires (forall i :: 0 <= i < |items| ==> GoodItem(items[i])) && 1 <= n <= last
    ensures var p := AllAdded(items, Numbers(last));
            p.Ranges? && (Contains(p.ranges, n) <==> Denotes(items, last, n) || (n == last && AnyBeyond(items, last)))
  {
    hide ItemRange, ItemDenotes, Beyond, InRange;
    if items != [] {
      var x, more := items[0], items[1..];
      NumbersExact(more, last, n);
      ItemExact(x, last, n);
      var r, rs := ItemRange(x, Numbers(last)), AllAdded(more, Numbers(last)).ranges;
      ContainsCons(r, rs, n);
      DenotesCons(items, last, n);
    }
  }

  lemma ContainsCons(r: Range, rs: seq<Range>, n: nat)
    ensures Contains([r] + rs, n) <==> InRange(r, n) || Contains(rs, n)
  {
    hide InRange;
    var all := [r] + rs;
    if InRange(r, n) {
      assert InRange(all[0], n);
    }
    if Contains(rs, n) {
      var i :| 0 <= i < |rs| && InRange(rs[i], n);
      assert InRange(all[i + 1], n);
    }
    if Contains(all, n) {
      var i :| 0 <= i < |all| && InRange(all[i], n);
      assert i > 0 ==> all[i] == rs[i - 1];
    }
  }

  lemma DenotesCons(items: seq<Item>, last: nat, n: nat)
    requires items != []
    ensures Denotes(items, last, n) <==> ItemDenotes(items[0], last, n) || Denotes(items[1..], last, n)
    ensures AnyBeyond(items, last) <==> Beyond(items[0], last) || AnyBeyond(items[1..], last)
  {
    hide ItemDenotes, Beyond;
    var more := items[1..];
    assert forall i :: 0 <= i < |more| ==> more[i] == items[i + 1];
    if Denotes(more, last, n) {
      var i :| 0 <= i < |more| && ItemDenotes(more[i], last, n);
      assert ItemDenotes(items[i + 1], last, n);
    }
    if AnyBeyond(more, last) {
      var i :| 0 <= i < |more| && Beyond(more[i], last);
      assert Beyond(items[i + 1], last);
    }
    if Denotes(items, last, n) {
      var i :| 0 <= i < |items| && ItemDenotes(items[i], last, n);
      assert i > 0 ==> items[i] == more[i - 1];
    }
    if AnyBeyond(items, last) {
      var i :| 0 <= i < |items| && Beyond(items[i], last);
      assert i > 0 ==> items[i] == more[i - 1];
    }
  }

  /** What the library holds for the members of a set. */
  predicate Holds(items: seq<Item>, w: Where, n: nat) {
    var p := Read(SetText(items), w);
    p.Ranges? && Contains(p.ranges, n)
  }

  /** So a set is read as it is meant, for all messages, if and only if no item of it
      lies behind the mailbox, or it holds the last message anyway. */
  lemma SetExact(items: seq<Item>, last: nat)
    requires GoodSet(items) && last > 0
    ensures Read(SetText(items), Numbers(last)).Ranges?
    ensures (forall n :: 1 <= n <= last ==> (Holds(items, Numbers(last), n) <==> Denotes(items, last, n)))
       <==> !AnyBeyond(items, last) || Denotes(items, last, last)
  {
    hide Read, AllAdded, Contains, Denotes, AnyBeyond;
    SetRead(items, Numbers(last));
    NumbersExact(items, last, last);
    forall n | 1 <= n <= last
      ensures Holds(items, Numbers(last), n) <==> Denotes(items, last, n) || (n == last && AnyBeyond(items, last))
    {
      NumbersExact(items, last, n);
    }
    assert 1 <= last <= last;
  }

  /** `9`, in a mailbox of three messages, is the third. */
  lemma LastForNine()
    ensures Read("9", Numbers(3)) == Ranges([Range(3, 3)])
    ensures !Denotes([One(Num(9))], 3, 3)
  {
    hide Read;
    SetRead([One(Num(9))], Numbers(3));
    OneAdded([One(Num(9))], Numbers(3));
    assert SetText([One(Num(9))]) == "9";
  }

  // ---------- the sets of the UID key ----------

  predicate StarFree(items: seq<Item>) {
    forall i :: 0 <= i < |items| ==> items[i].a.Num? && (items[i].Span? ==> items[i].b.Num?)
  }

  /** Without a mailbox a set of numbers is read as it is meant. */
  lemma {:induction false} UnboundExact(items: seq<Item>, n: nat)
    requires (forall i :: 0 <= i < |items| ==> GoodItem(items[i])) && StarFree(items)
    ensures var p := AllAdded(items, Unbound);
            p.Ranges? && (Contains(p.ranges, n) <==> Denotes(items, 0, n))
  {
    hide ItemDenotes, InRange, ItemRange;
    if items != [] {
      var x, more := items[0], items[1..];
      UnboundExact(more, n);
      UnboundItem(x, n);
      ContainsCons(ItemRange(x, Unbound), AllAdded(more, Unbound).ranges, n);
      DenotesCons(items, 0, n);
    }
  }

  lemma UnboundItem(x: Item, n: nat)
    requires GoodItem(x) && x.a.Num? && (x.Span? ==> x.b.Num?)
    ensures var r := ItemRange(x, Unbound);
            r.beg > 0 && (InRange(r, n) <==> ItemDenotes(x, 0, n))
  {
  }

  /** Without a mailbox a range up to `*` holds nothing, and one from `*` is refused. */
  lemma StarUnbound(n: nat, k: nat)
    requires 0 < n <= ULONG_MAX
    ensures Read(SetText([Span(Num(n), Star)]), Unbound) == Ranges([Range(n, 0)])
    ensures !Contains([Range(n, 0)], k)
    ensures Read(SetText([One(Star)]), Unbound) == Read(SetText([Span(Star, Num(n))]), Unbound) == Refused
  {
    hide Read, SetText;
    SetRead([Span(Num(n), Star)], Unbound);
    OneAdded([Span(Num(n), Star)], Unbound);
    SetRead([One(Star)], Unbound);
    OneAdded([One(Star)], Unbound);
    SetRead([Span(Star, Num(n))], Unbound);
    OneAdded([Span(Star, Num(n))], Unbound);
  }

  // ---------- the sets of UIDs of section 6.4.8 of RFC 3501 ----------

  /** The least and the largest number an item names; `*` is the last UID. */
  function Low(x: Item, last: nat): nat {
    if x.Span? && Value(x.b, last) < Value(x.a, last) then Value(x.b, last) else Value(x.a, last)
  }

  function High(x: Item, last: nat): nat {
    if x.Span? && Value(x.b, last) > Value(x.a, last) then Value(x.b, last) else Value(x.a, last)
  }

  /** An item all of whose UIDs lie before the first or behind the last one in use. */
  predicate Outside(x: Item, uids: seq<nat>)
    requires uids != []
  {
    var last := uids[|uids| - 1];
    High(x, last) < uids[0] || last < Low(x, last)
  }

  /** The messages selected are those whose UIDs the item denotes. */
  ghost predicate SelectsUids(x: Item, uids: seq<nat>, t: Option<Range>)
    requires uids != []
  {
    t.Some? && forall i :: 0 <= i < |uids| ==> (InRange(t.value, i + 1) <==> ItemDenotes(x, uids[|uids| - 1], uids[i]))
  }

  lemma DrawnRange(x: Item, uids: seq<nat>)
    requires Ascending(uids) && uids != [] && GoodItem(x)
    ensures var r, last := ItemRange(x, Uids(uids)), uids[|uids| - 1];
            && 0 < r.beg <= r.end
            && (!Outside(x, uids) ==>
                  forall i :: 0 <= i < |uids| ==> (r.beg <= uids[i] <= r.end <==> ItemDenotes(x, last, uids[i])))
            && (Outside(x, uids) ==> r.beg == r.end && (r.beg == uids[0] || r.beg == last))
            && forall u: nat :: ItemDenotes(x, last, u) <==> Low(x, last) <= u <= High(x, last)
  {
    assert forall i :: 0 <= i < |uids| ==> uids[0] <= uids[i] <= uids[|uids| - 1];
  }

  /** An item of a set of UIDs selects the messages it should if and only if it does not
      lie outside the UIDs in use, and its range, drawn between them, is translated
      rightly. */
  lemma UidItemExact(x: Item, uids: seq<nat>)
    requires Ascending(uids) && uids != [] && GoodItem(x)
    ensures var r := ItemRange(x, Uids(uids));
            SelectsUids(x, uids, Translate(uids, r)) <==> !Outside(x, uids) && Translatable(uids, r)
  {
    hide ItemRange, ItemDenotes, Translate, Translatable, Low, High;
    var r, last := ItemRange(x, Uids(uids)), uids[|uids| - 1];
    DrawnRange(x, uids);
    if Outside(x, uids) {
      var i := OneTranslated(uids, r);
      assert uids[0] <= uids[i] <= last && !ItemDenotes(x, last, uids[i]);
    } else {
      TranslateExact(uids, r);
    }
  }

  lemma OneTranslated(uids: seq<nat>, r: Range) returns (i: nat)
    requires Ascending(uids) && uids != [] && r.beg == r.end && (r.beg == uids[0] || r.beg == uids[|uids| - 1])
    ensures i < |uids| && Translate(uids, r).Some? && InRange(Translate(uids, r).value, i + 1)
  {
    i := NumberOfUid(uids, r.beg).value - 1;
  }
}
