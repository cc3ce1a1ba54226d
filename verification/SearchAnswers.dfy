/** SEARCH from the words of the command to the numbers in its response. */
module SearchAnswers {
  import opened Common
  import opened Search
  import opened SearchEval
  import opened SearchWords
  import SearchParser

  /** The keys stand behind the tag and SEARCH, or behind the tag, UID and SEARCH. */
  lemma KeysOf(lib: Library, tag: string, keys: seq<string>)
    ensures lib.isuid ==> SearchParser.StatementOf(lib, [tag, "UID", "SEARCH"] + keys) == keys
    ensures !lib.isuid ==> SearchParser.StatementOf(lib, [tag, "SEARCH"] + keys) == keys
  {
  }

  lemma TreeSelects(lib: Library, ts: seq<string>, msg: Message)
    requires Search0(lib, ts).Ready?
    ensures Selects(lib, ts, msg) <==> Meaning(lib, Search0(lib, ts).tree, msg)
  {
    hide Compile, Meaning, EvalNumber;
    NeverAborts(lib, KeyTokens(ts), msg);
  }

  /** The message with number `i` can be read, and the words select it. */
  predicate Picked(lib: Library, ts: seq<string>, mailbox: seq<Option<Message>>, i: nat) {
    1 <= i <= |mailbox| && mailbox[i - 1].Some? && Selects(lib, ts, mailbox[i - 1].value)
  }

  lemma ChosenPicked(lib: Library, ts: seq<string>, mailbox: seq<Option<Message>>, i: nat)
    requires Search0(lib, ts).Ready?
    ensures i in Selected(lib, Search0(lib, ts).tree, mailbox, |mailbox|) <==> Picked(lib, ts, mailbox, i)
  {
    hide Search0, Meaning, Selects, Selected;
    SelectedAll(lib, Search0(lib, ts).tree, mailbox, |mailbox|);
    if 1 <= i <= |mailbox| && mailbox[i - 1].Some? {
      TreeSelects(lib, ts, mailbox[i - 1].value);
    }
  }

  /** The response to a SEARCH lists exactly the numbers of the messages that the words of
      its keys select, in ascending order. */
  lemma NumbersListed(lib: Library, ts: seq<string>, mailbox: seq<Option<Message>>,
                      numbers: Option<seq<nat>>, text: string)
    requires Search0(lib, ts).Ready? && !lib.isuid && SearchParser.Answered(lib, ts, mailbox, numbers, text)
    ensures text == "Completed" && numbers.Some?
    ensures forall i :: i in numbers.value <==> Picked(lib, ts, mailbox, i)
    ensures forall j, k :: 0 <= j < k < |numbers.value| ==> numbers.value[j] < numbers.value[k]
  {
    hide Search0, Picked, Selected;
    var chosen := Selected(lib, Search0(lib, ts).tree, mailbox, |mailbox|);
    assert numbers.value == chosen;
    SelectedAll(lib, Search0(lib, ts).tree, mailbox, |mailbox|);
    forall i ensures i in numbers.value <==> Picked(lib, ts, mailbox, i) {
      ChosenPicked(lib, ts, mailbox, i);
    }
  }

  /** And that to a UID SEARCH their UIDs. */
  lemma UidsListed(lib: Library, ts: seq<string>, mailbox: seq<Option<Message>>,
                   numbers: Option<seq<nat>>, text: string, u: nat)
    requires Search0(lib, ts).Ready? && lib.isuid && SearchParser.Answered(lib, ts, mailbox, numbers, text)
    ensures text == "Completed" && numbers.Some?
    ensures u in numbers.value <==> exists i :: Picked(lib, ts, mailbox, i) && mailbox[i - 1].value.uid == u
  {
    hide Search0, Selects, Selected;
    var chosen := Selected(lib, Search0(lib, ts).tree, mailbox, |mailbox|);
    if u in numbers.value {
      var k :| 0 <= k < |numbers.value| && numbers.value[k] == u;
      ChosenPicked(lib, ts, mailbox, chosen[k]);
      assert numbers.value[k] == Reported(mailbox, chosen[k], lib.isuid);
      assert Picked(lib, ts, mailbox, chosen[k]) && mailbox[chosen[k] - 1].value.uid == u;
    }
    if i :| Picked(lib, ts, mailbox, i) && mailbox[i - 1].value.uid == u {
      ChosenPicked(lib, ts, mailbox, i);
      var k :| 0 <= k < |chosen| && chosen[k] == i;
      assert numbers.value[k] == Reported(mailbox, chosen[k], lib.isuid);
    }
  }
}
