/** The kanban task board (components/widgets/task-board.tsx): tasks are
    grouped into buckets keyed by their status string, the buckets are shown
    as three columns in a fixed order, each card carries a badge chosen by
    priority and the assignee's initials. Task records mirror the `Task`
    interface of types/dashboard.ts; the due date is not rendered and is
    left out. */
module TaskBoard {

  datatype Option<T> = None | Some(value: T)

  datatype Status = Todo | InProgress | Done
  datatype Priority = Low | Medium | High
  datatype BadgeVariant = Secondary | Warning | Destructive

  datatype Task = Task(
    id: string,
    title: string,
    description: string,
    status: Status,
    priority: Priority,
    assignee: Option<string>)

  /** The string a status takes at run time, which is the bucket key. */
  function StatusKey(s: Status): string
  {
    match s
    case Todo => "todo"
    case InProgress => "in-progress"
    case Done => "done"
  }

  function Key(t: Task): string { StatusKey(t.status) }

  /** The column heading of each status. */
  function StatusLabel(s: Status): string
  {
    match s
    case Todo => "To Do"
    case InProgress => "In Progress"
    case Done => "Done"
  }

  /** The columns, in the order the label table lists them. */
  const Columns: seq<Status> := [Todo, InProgress, Done]

  /** The badge variant of each priority. */
  function PriorityVariant(p: Priority): BadgeVariant
  {
    match p
    case Low => Secondary
    case Medium => Warning
    case High => Destructive
  }

  /** Distinct priorities get distinct badges, and every status has its own
      key and exactly one column. */
  lemma TablesAreOneToOne(p: Priority, q: Priority, s: Status, u: Status)
    ensures PriorityVariant(p) == PriorityVariant(q) ==> p == q
    ensures StatusKey(s) == StatusKey(u) ==> s == u
    ensures s in Columns
    ensures forall i, j :: 0 <= i < j < |Columns| ==> Columns[i] != Columns[j]
  {
  }

  // ----- grouping -----

  /** Those tasks whose status key is `key`, in input order: the reference for
      one bucket. */
  function Filter(tasks: seq<Task>, key: string): (r: seq<Task>)
    ensures |r| <= |tasks|
    ensures forall t :: t in r ==> t in tasks && Key(t) == key
    decreases |tasks|
  {
    if tasks == [] then []
    else (if Key(tasks[0]) == key then [tasks[0]] else []) + Filter(tasks[1..], key)
  }

  /** A task is in the bucket of its own status, and only there. */
  lemma {:induction false} FilterMembership(tasks: seq<Task>, key: string, t: Task)
    ensures t in Filter(tasks, key) <==> t in tasks && Key(t) == key
    decreases |tasks|
  {
    if tasks != [] {
      FilterMembership(tasks[1..], key, t);
      assert tasks == [tasks[0]] + tasks[1..];
    }
  }

  /** Buckets keep input order: everything earlier in the input comes
      earlier in its bucket. */
  lemma {:induction false} FilterAppend(a: seq<Task>, b: seq<Task>, key: string)
    ensures Filter(a + b, key) == Filter(a, key) + Filter(b, key)
    decreases |a|
  {
    if a == [] {
      assert a + b == b;
    } else {
      assert (a + b)[1..] == a[1..] + b;
      FilterAppend(a[1..], b, key);
    }
  }

  /** A bucket holds each task as often as the input does when the key
      matches, and never otherwise. */
  lemma {:induction false} FilterMultiplicity(tasks: seq<Task>, key: string, t: Task)
    ensures multiset(Filter(tasks, key))[t] == if Key(t) == key then multiset(tasks)[t] else 0
    decreases |tasks|
  {
    if tasks != [] {
      FilterMultiplicity(tasks[1..], key, t);
      assert tasks == [tasks[0]] + tasks[1..];
      assert multiset(Filter(tasks, key))
          == multiset(if Key(tasks[0]) == key then [tasks[0]] else []) + multiset(Filter(tasks[1..], key));
    }
  }

  /** No task with the key, no bucket contents. */
  lemma {:induction false} FilterEmpty(tasks: seq<Task>, key: string)
    requires forall t :: t in tasks ==> Key(t) != key
    ensures Filter(tasks, key) == []
    decreases |tasks|
  {
    if tasks != [] {
      assert tasks[0] in tasks;
      assert forall t :: t in tasks[1..] ==> t in tasks;
      FilterEmpty(tasks[1..], key);
    }
  }

  /** The three buckets together hold every task exactly once. */
  lemma FilterPartition(tasks: seq<Task>)
    ensures multiset(Filter(tasks, "todo")) + multiset(Filter(tasks, "in-progress"))
            + multiset(Filter(tasks, "done")) == multiset(tasks)
    ensures |Filter(tasks, "todo")| + |Filter(tasks, "in-progress")| + |Filter(tasks, "done")| == |tasks|
  {
    var all := multiset(Filter(tasks, "todo")) + multiset(Filter(tasks, "in-progress"))
               + multiset(Filter(tasks, "done"));
    forall t ensures all[t] == multiset(tasks)[t] {
      FilterMultiplicity(tasks, "todo", t);
      FilterMultiplicity(tasks, "in-progress", t);
      FilterMultiplicity(tasks, "done", t);
    }
    assert all == multiset(tasks);
  }

  /** The keys present after one more task. */
  lemma KeysAppend(a: seq<Task>, x: Task)
    ensures (set t | t in a + [x] :: Key(t)) == (set t | t in a :: Key(t)) + {Key(x)}
  {
    var l := set t | t in a + [x] :: Key(t);
    var r := (set t | t in a :: Key(t)) + {Key(x)};
    forall k | k in l ensures k in r {
      var t :| t in a + [x] && Key(t) == k;
      if t != x {
        assert t in a;
      }
    }
    forall k | k in r ensures k in l {
      if k != Key(x) {
        var t :| t in a && Key(t) == k;
        assert t in a + [x];
      } else {
        assert x in a + [x];
      }
    }
  }

  /** The bucket keys are the keys of those tasks present, and each bucket is
      the filter of its key. */
  ghost predicate IsGrouping(groups: map<string, seq<Task>>, tasks: seq<Task>)
  {
    && groups.Keys == (set t | t in tasks :: Key(t))
    && forall k :: k in groups ==> groups[k] == Filter(tasks, k)
  }

  /** The `reduce` that builds the buckets: each task is pushed onto the
      bucket of its status, creating the bucket on first use. */
  method GroupByStatus(tasks: seq<Task>) returns (groups: map<string, seq<Task>>)
    ensures IsGrouping(groups, tasks)
  {
    groups := map[];
    var i := 0;
    while i < |tasks|
      invariant 0 <= i <= |tasks|
      invariant IsGrouping(groups, tasks[..i])
    {
      var task := tasks[i];
      var key := StatusKey(task.status);
      ghost var before := groups;
      assert tasks[..i + 1] == tasks[..i] + [task];
      KeysAppend(tasks[..i], task);
      if key !in groups {
        FilterEmpty(tasks[..i], key);
        groups := groups[key := []];
      }
      groups := groups[key := groups[key] + [task]];
      forall k | k in groups ensures groups[k] == Filter(tasks[..i + 1], k) {
        FilterAppend(tasks[..i], [task], k);
        assert Filter([task], k) == if Key(task) == k then [task] else [];
        if k != key {
          assert groups[k] == before[k];
        }
      }
      i := i + 1;
    }
    assert tasks[..i] == tasks;
  }

  /** Two groupings of the same tasks are the same map. */
  lemma GroupingIsUnique(g1: map<string, seq<Task>>, g2: map<string, seq<Task>>, tasks: seq<Task>)
    requires IsGrouping(g1, tasks) && IsGrouping(g2, tasks)
    ensures g1 == g2
  {
  }

  /** A status no task has gets no bucket at all. */
  lemma {:induction false} AbsentStatusHasNoBucket(groups: map<string, seq<Task>>, tasks: seq<Task>, s: Status)
    requires IsGrouping(groups, tasks)
    requires forall t :: t in tasks ==> t.status != s
    ensures StatusKey(s) !in groups
    ensures Filter(tasks, StatusKey(s)) == []
  {
    FilterEmpty(tasks, StatusKey(s));
  }

  // ----- rendering -----

  datatype Column = Column(heading: string, cards: seq<Task>)

  /** The cards of one column: a missing bucket renders no cards. */
  function Cards(groups: map<string, seq<Task>>, s: Status): seq<Task>
  {
    var k := StatusKey(s);
    if k in groups then groups[k] else []
  }

  /** The board walks the label table, so only the three known keys are
      ever looked up. */
  function Board(groups: map<string, seq<Task>>): seq<Column>
  {
    seq(|Columns|, i requires 0 <= i < |Columns| => Column(StatusLabel(Columns[i]), Cards(groups, Columns[i])))
  }

  /** The buckets of a grouping, rendered: three columns in the fixed order,
      each holding exactly those tasks with its status, in input order. */
  lemma BoardOfGrouping(groups: map<string, seq<Task>>, tasks: seq<Task>)
    requires IsGrouping(groups, tasks)
    ensures |Board(groups)| == 3
    ensures Board(groups)[0] == Column("To Do", Filter(tasks, "todo"))
    ensures Board(groups)[1] == Column("In Progress", Filter(tasks, "in-progress"))
    ensures Board(groups)[2] == Column("Done", Filter(tasks, "done"))
  {
    forall s: Status ensures Cards(groups, s) == Filter(tasks, StatusKey(s)) {
      if StatusKey(s) !in groups {
        AbsentStatusHasNoBucket(groups, tasks, s);
      }
    }
    assert Cards(groups, Todo) == Filter(tasks, "todo");
    assert Cards(groups, InProgress) == Filter(tasks, "in-progress");
    assert Cards(groups, Done) == Filter(tasks, "done");
  }

  /** The board shows every grouped task exactly once. */
  lemma BoardShowsEveryTask(groups: map<string, seq<Task>>, tasks: seq<Task>)
    requires IsGrouping(groups, tasks)
    ensures multiset(Board(groups)[0].cards) + multiset(Board(groups)[1].cards)
            + multiset(Board(groups)[2].cards) == multiset(tasks)
  {
    BoardOfGrouping(groups, tasks);
    FilterPartition(tasks);
  }

  /** A bucket under any key other than the three known ones never reaches
      the screen: dropping it leaves the board unchanged. */
  lemma BoardIgnoresOtherKeys(groups: map<string, seq<Task>>)
    ensures Board(groups) ==
      Board(map k | k in groups && k in {"todo", "in-progress", "done"} :: groups[k])
  {
    var known := map k | k in groups && k in {"todo", "in-progress", "done"} :: groups[k];
    forall s: Status ensures Cards(groups, s) == Cards(known, s) {
    }
  }

  // ----- initials -----

  /** `s.split(" ")`: the pieces between single spaces, empty pieces
      included, at least one piece. */
  function Split(s: string): (parts: seq<string>)
    ensures |parts| >= 1
    ensures forall i :: 0 <= i < |parts| ==> ' ' !in parts[i]
    decreases |s|
  {
    if s == [] then [[]]
    else
      var rest := Split(s[1..]);
      if s[0] == ' ' then [[]] + rest
      else [[s[0]] + rest[0]] + rest[1..]
  }

  /** `parts.join(" ")`. */
  function Join(parts: seq<string>): string
    requires |parts| >= 1
    decreases |parts|
  {
    if |parts| == 1 then parts[0] else parts[0] + " " + Join(parts[1..])
  }

  /** Splitting loses nothing: joining the pieces back gives the input. */
  lemma {:induction false} SplitJoin(s: string)
    ensures Join(Split(s)) == s
    decreases |s|
  {
    if s != [] {
      SplitJoin(s[1..]);
      var rest := Split(s[1..]);
      if s[0] == ' ' {
        assert Split(s) == [[]] + rest;
        assert ([[]] + rest)[1..] == rest;
      } else {
        var parts := [[s[0]] + rest[0]] + rest[1..];
        assert Split(s) == parts;
        if |rest| == 1 {
          assert Join(parts) == [s[0]] + rest[0];
        } else {
          assert parts[1..] == rest[1..];
          assert Join(parts) == [s[0]] + rest[0] + " " + Join(rest[1..]);
        }
      }
      assert s == [s[0]] + s[1..];
    }
  }

  /** `.map((n) => n[0]).join("")`: the first character of each piece; an
      empty piece yields `undefined`, which joins as nothing. */
  function FirstChars(words: seq<string>): string
    decreases |words|
  {
    if words == [] then []
    else (if words[0] == [] then [] else [words[0][0]]) + FirstChars(words[1..])
  }

  /** The initials badge text: the first characters of the pieces of a
      split at each space. */
  function Initials(name: string): (r: string)
    ensures r == WordStarts(name, true)
  {
    InitialsAreWordStarts(name);
    FirstChars(Split(name))
  }

  /** Reference definition: the characters of `s` that are not spaces and
      start the string (when `atStart`) or follow a space. */
  function WordStarts(s: string, atStart: bool): (r: string)
    ensures ' ' !in r
    ensures |r| <= |s|
    decreases |s|
  {
    if s == [] then []
    else (if atStart && s[0] != ' ' then [s[0]] else []) + WordStarts(s[1..], s[0] == ' ')
  }

  /** The initials are exactly the word-initial characters of the name. */
  lemma {:induction false} InitialsAreWordStarts(s: string)
    ensures FirstChars(Split(s)) == WordStarts(s, true)
    ensures FirstChars(Split(s)[1..]) == WordStarts(s, false)
    decreases |s|
  {
    if s != [] {
      InitialsAreWordStarts(s[1..]);
      var rest := Split(s[1..]);
      if s[0] == ' ' {
        assert Split(s) == [[]] + rest;
        assert ([[]] + rest)[1..] == rest;
      } else {
        var parts := [[s[0]] + rest[0]] + rest[1..];
        assert Split(s) == parts;
        assert parts[1..] == rest[1..];
      }
    }
  }

  /** The initials badge of a card: none without an assignee (or with an
      empty one), otherwise the word-initial characters of the name. */
  function AssigneeInitials(assignee: Option<string>): (r: Option<string>)
    ensures r.Some? <==> assignee.Some? && assignee.value != []
    ensures r.Some? ==> r.value == WordStarts(assignee.value, true) && ' ' !in r.value
  {
    match assignee
    case None => None
    case Some(name) =>
      if name == [] then None
      else Some(Initials(name))
  }

  /** A leading run of non-space characters joins the first piece. */
  lemma {:induction false} SplitPrefix(w: string, s: string)
    requires ' ' !in w
    ensures Split(w + s) == [w + Split(s)[0]] + Split(s)[1..]
    decreases |w|
  {
    if w == [] {
      assert w + s == s;
      assert w + Split(s)[0] == Split(s)[0];
      assert Split(s) == [Split(s)[0]] + Split(s)[1..];
    } else {
      SplitPrefix(w[1..], s);
      assert (w + s)[1..] == w[1..] + s;
      assert (w + s)[0] == w[0];
      assert [w[0]] + (w[1..] + Split(s)[0]) == w + Split(s)[0];
    }
  }

  /** Joining words that hold no space and splitting again gives the words
      back. */
  lemma {:induction false} JoinSplit(words: seq<string>)
    requires |words| >= 1
    requires forall i :: 0 <= i < |words| ==> ' ' !in words[i]
    ensures Split(Join(words)) == words
    decreases |words|
  {
    if |words| == 1 {
      SplitPrefix(words[0], []);
      assert words[0] + [] == words[0];
    } else {
      var tail := Join(words[1..]);
      JoinSplit(words[1..]);
      SplitPrefix(words[0], " " + tail);
      assert words[0] + " " + tail == words[0] + (" " + tail);
      assert (" " + tail)[1..] == tail;
      assert Split(" " + tail) == [[]] + words[1..];
      assert Join(words) == words[0] + (" " + tail);
      assert words[0] + [] == words[0];
      assert words == [words[0]] + words[1..];
    }
  }

  /** A name made of words gets the first character of each non-empty
      word. */
  lemma InitialsOfWords(words: seq<string>)
    requires |words| >= 1
    requires forall i :: 0 <= i < |words| ==> ' ' !in words[i]
    ensures Initials(Join(words)) == FirstChars(words)
  {
    JoinSplit(words);
  }

  lemma InitialsOfTwoWords()
    ensures Initials("John Doe") == "JD"
  {
    assert Join(["John", "Doe"]) == "John Doe";
    InitialsOfWords(["John", "Doe"]);
  }

  /** A doubled space yields an empty piece, which adds no initial. */
  lemma InitialsSkipEmptyPieces()
    ensures Initials("John  Doe") == "JD"
  {
    var words := ["John", "", "Doe"];
    assert Join(words[2..]) == "Doe";
    assert Join(words[1..]) == " Doe";
    assert Join(words) == "John  Doe";
    InitialsOfWords(words);
    assert FirstChars(words[2..]) == "D";
    assert FirstChars(words[1..]) == "D";
  }

  /** No badge without an assignee or with an empty one. */
  lemma NoAssigneeNoInitials()
    ensures AssigneeInitials(None) == None
    ensures AssigneeInitials(Some("")) == None
  {
  }

  // ----- the sample tasks -----

  const MockTasks: seq<Task> := [
    Task("1", "Update landing page", "Redesign the hero section with new marketing copy",
         InProgress, High, Some("John Doe")),
    Task("2", "Fix navigation bug", "Mobile menu not closing on route change",
         Todo, Medium, Some("Jane Smith")),
    Task("3", "Add user authentication", "Implement JWT-based authentication system",
         Todo, High, Some("Mike Johnson")),
    Task("4", "Write documentation", "Complete API documentation for all endpoints",
         Done, Low, Some("Sarah Williams"))
  ]

  /** The buckets of four tasks with the statuses of the sample data,
      whatever their other fields. */
  lemma FourTasksFilters(t1: Task, t2: Task, t3: Task, t4: Task)
    requires t1.status == InProgress && t2.status == Todo && t3.status == Todo && t4.status == Done
    ensures Filter([t1, t2, t3, t4], "todo") == [t2, t3]
    ensures Filter([t1, t2, t3, t4], "in-progress") == [t1]
    ensures Filter([t1, t2, t3, t4], "done") == [t4]
  {
    assert "todo" != "done" by { assert "todo"[0] != "done"[0]; }
    assert [t1, t2, t3, t4][1..] == [t2, t3, t4] && [t2, t3, t4][1..] == [t3, t4];
    assert [t3, t4][1..] == [t4] && [t4][1..] == [];
    assert Filter([t3, t4], "todo") == [t3];
    assert Filter([t2, t3, t4], "todo") == [t2, t3];
    assert Filter([t4], "in-progress") == [];
    assert Filter([t3, t4], "in-progress") == [];
    assert Filter([t2, t3, t4], "in-progress") == [];
    assert Filter([t3, t4], "done") == [t4];
    assert Filter([t2, t3, t4], "done") == [t4];
  }

  lemma FourTasksKeys(t1: Task, t2: Task, t3: Task, t4: Task)
    requires t1.status == InProgress && t2.status == Todo && t3.status == Todo && t4.status == Done
    ensures (set t | t in [t1, t2, t3, t4] :: Key(t)) == {"todo", "in-progress", "done"}
  {
    var keys := set t | t in [t1, t2, t3, t4] :: Key(t);
    assert Key(t1) in keys && Key(t2) in keys && Key(t4) in keys;
    forall k | k in keys ensures k in {"todo", "in-progress", "done"} {
      var t :| t in [t1, t2, t3, t4] && Key(t) == k;
    }
  }

  /** The sample tasks group as todo = [2, 3], in-progress = [1],
      done = [4]. */
  lemma MockTasksGrouping(groups: map<string, seq<Task>>)
    requires IsGrouping(groups, MockTasks)
    ensures groups.Keys == {"todo", "in-progress", "done"}
    ensures groups["todo"] == [MockTasks[1], MockTasks[2]]
    ensures groups["in-progress"] == [MockTasks[0]]
    ensures groups["done"] == [MockTasks[3]]
  {
    var t1, t2, t3, t4 := MockTasks[0], MockTasks[1], MockTasks[2], MockTasks[3];
    assert MockTasks == [t1, t2, t3, t4];
    FourTasksKeys(t1, t2, t3, t4);
    FourTasksFilters(t1, t2, t3, t4);
  }
}
