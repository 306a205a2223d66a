/** The Python task list: the module-level `tasks` list shared by the
    `add`, `remove` and `list` cogs, kept in memory only. */
module TaskList {
  import opened Text

  const NotFoundReply: string := "Task not found."
  const NoTasksReply: string := "No tasks saved."
  const ListHeader: string := "Saved tasks:"

  /** The position of the first occurrence of `x`, where `list.remove` cuts. */
  function FirstIndex(s: seq<string>, x: string): (i: nat)
    requires x in s
    ensures i < |s| && s[i] == x && x !in s[..i]
  {
    if s[0] == x then 0
    else
      var j := FirstIndex(s[1..], x);
      assert s[..j + 1] == [s[0]] + s[1..][..j];
      j + 1
  }

  /** Python's `list.remove(x)` on a list that may or may not hold `x`:
      only the first occurrence goes. */
  function RemoveFirst(s: seq<string>, x: string): (r: seq<string>)
    ensures x !in s ==> r == s
    ensures x in s ==> |r| == |s| - 1
    ensures multiset(r) == multiset(s) - multiset{x}
  {
    if s == [] then []
    else
      assert s == [s[0]] + s[1..];
      if s[0] == x then s[1..]
      else [s[0]] + RemoveFirst(s[1..], x)
  }

  /** The bullet lines of `list`. */
  function Bullets(tasks: seq<string>): seq<string>
  {
    seq(|tasks|, i requires 0 <= i < |tasks| => "- " + tasks[i])
  }

  /** The reply of `list`: `No tasks saved.` exactly when the list is empty;
      otherwise the header line comes first and the last task's bullet last. */
  function ListTasksReply(tasks: seq<string>): (r: string)
    ensures r == NoTasksReply <==> |tasks| == 0
    ensures |tasks| > 0 ==>
      && |r| > |ListHeader| && r[..|ListHeader| + 1] == ListHeader + "\n"
      && |r| >= |"- " + tasks[|tasks| - 1]|
      && r[|r| - |"- " + tasks[|tasks| - 1]|..] == "- " + tasks[|tasks| - 1]
  {
    if |tasks| == 0 then NoTasksReply
    else
      var b := Bullets(tasks);
      var body := Join(b, '\n');
      var head := ListHeader + "\n";
      var r := head + body;
      var last := b[|b| - 1];
      assert last == "- " + tasks[|tasks| - 1];
      assert r[..|head|] == head;
      assert r[|r| - |last|..] == body[|body| - |last|..];
      assert r[0] == 'S' && NoTasksReply[0] == 'N';
      r
  }

  /** The shared `tasks` list. */
  class Tasks {
    var tasks: seq<string>

    /** `tasks = []` at import time. */
    constructor ()
      ensures tasks == []
    {
      tasks := [];
    }

    /** `add`: append the text, duplicates included; the reply echoes it. */
    method Add(task: string) returns (reply: string)
      modifies this
      ensures tasks == old(tasks) + [task]
      ensures reply == "Task added: " + task
    {
      tasks := tasks + [task];
      reply := "Task added: " + task;
    }

    /** `remove`: a membership test, then `list.remove`. */
    method Remove(task: string) returns (reply: string)
      modifies this
      ensures tasks == RemoveFirst(old(tasks), task)
      ensures task in old(tasks) ==> reply == "Removed: " + task
      ensures task !in old(tasks) ==> tasks == old(tasks) && reply == NotFoundReply
    {
      if task in tasks {
        tasks := RemoveFirst(tasks, task);
        reply := "Removed: " + task;
      } else {
        reply := NotFoundReply;
      }
    }
  }

  /** `remove` of a present task cuts exactly its first occurrence: the
      elements before and after it stay, in order, so later duplicates of
      the same text remain. */
  lemma {:induction false} RemoveFirstCuts(s: seq<string>, x: string)
    requires x in s
    ensures RemoveFirst(s, x) == s[..FirstIndex(s, x)] + s[FirstIndex(s, x) + 1..]
  {
    if s[0] != x {
      var t := s[1..];
      RemoveFirstCuts(t, x);
      var j := FirstIndex(t, x);
      assert s == [s[0]] + t;
      ConsCut(s[0], t, j);
    } else {
      assert s[..0] + s[1..] == s[1..];
    }
  }

  /** Cutting position `j + 1` out of `[h] + t` is cutting position `j` out of `t`. */
  lemma ConsCut(h: string, t: seq<string>, j: nat)
    requires j < |t|
    ensures [h] + (t[..j] + t[j + 1..]) == ([h] + t)[..j + 1] + ([h] + t)[j + 2..]
  {
    assert ([h] + t)[..j + 1] == [h] + t[..j];
    assert ([h] + t)[j + 2..] == t[j + 1..];
  }

  /** Each occurrence of `x` but one survives `remove`. */
  lemma RemoveFirstKeepsDuplicates(s: seq<string>, x: string)
    requires x in s
    ensures multiset(RemoveFirst(s, x))[x] == multiset(s)[x] - 1
    ensures forall y :: y != x ==> multiset(RemoveFirst(s, x))[y] == multiset(s)[y]
  {
  }

  /** A non-empty `list` reply is the header line followed by one `- t` line
      per task, in order, separated by `\n` (as long as no task contains a
      newline itself). */
  lemma ListTasksLines(tasks: seq<string>)
    requires |tasks| > 0
    requires forall i :: 0 <= i < |tasks| ==> '\n' !in tasks[i]
    ensures Split(ListTasksReply(tasks), '\n') == [ListHeader] + Bullets(tasks)
    ensures |Split(ListTasksReply(tasks), '\n')| == |tasks| + 1
    ensures forall i :: 0 <= i < |tasks| ==> Split(ListTasksReply(tasks), '\n')[i + 1] == "- " + tasks[i]
  {
    var ls := [ListHeader] + Bullets(tasks);
    JoinCons(ListHeader, Bullets(tasks), '\n');
    assert ListTasksReply(tasks) == Join(ls, '\n');
    SplitJoin(ls, '\n');
  }
}
