/** The two task routes of the web server: `POST /api/multi_agents`, which checks
    the request and hands back a task id made from the clock, and
    `GET /api/tasks/{task_id}`, which looks for output files whose names start with
    that id after every `task_` is removed from it. The request body, the clock
    reading and the listing of the output directory are inputs; each handler is a
    function from them to the response. */
module TaskServer {
  import opened PyStr
  import opened JsonValues

  /** A `JSONResponse`: its status code and its JSON object. */
  datatype Response = Response(status: int, content: map<string, Json>)

  /** What `await request.json()` did: raised with the given message, or decoded. */
  datatype RequestBody = Unreadable(reason: string) | Body(data: Json)

  /** The output directory as the lookup finds it: absent (`os.path.exists` is
      false), present but `os.listdir` raises with the given message, or its names
      in listing order. */
  datatype Listing = Missing | Unlistable(reason: string) | Entries(names: seq<string>)

  const OutputDir: string := "outputs"

  const TaskIdPrefix: string := "task_"

  /** The body of every 500 answer: the exception's message. */
  function ErrorContent(message: string): (c: map<string, Json>)
    ensures c.Keys == {"status", "message"}
    ensures c["status"] == JStr("error") && c["message"] == JStr(message)
  {
    map["status" := JStr("error"), "message" := JStr(message)]
  }

  const TaskRequiredContent: map<string, Json> := ErrorContent("Task is required")

  const NotFoundContent: map<string, Json> :=
    map["status" := JStr("not_found"), "message" := JStr("Task not found or still processing")]

  /** `str(e)` for the `AttributeError` raised by `data.get` when the body is not
      a JSON object. */
  function NoGetMessage(data: Json): string {
    "'" + TypeName(data) + "' object has no attribute 'get'"
  }

  /** `data.get("task")` */
  function TaskField(fields: map<string, Json>): (v: Json)
    ensures "task" in fields ==> v == fields["task"]
    ensures "task" !in fields ==> v == JNull && !Truthy(v)
  {
    if "task" in fields then fields["task"] else JNull
  }

  /** `f"task_{int(time.time())}"`, the clock reading given in whole seconds. */
  function TaskId(seconds: nat): (id: string)
    ensures StartsWith(id, TaskIdPrefix)
    ensures forall i :: |TaskIdPrefix| <= i < |id| ==> IsDigit(id[i])
  {
    TaskIdPrefix + Decimal(seconds)
  }

  /** `run_multi_agents`, given what the request body decodes to and the clock. */
  function RunMultiAgents(body: RequestBody, seconds: nat): (r: Response)
    ensures r.status == 400 <==> body.Body? && body.data.JObject? && !Truthy(TaskField(body.data.fields))
    ensures r.status == 202 <==> body.Body? && body.data.JObject? && Truthy(TaskField(body.data.fields))
    ensures r.status == 500 <==> !body.Body? || !body.data.JObject?
    ensures body.Unreadable? ==> r == Response(500, ErrorContent(body.reason))
  {
    match body
    case Unreadable(reason) => Response(500, ErrorContent(reason))
    case Body(data) =>
      if !data.JObject? then Response(500, ErrorContent(NoGetMessage(data)))
      else
        var task := TaskField(data.fields);
        if !Truthy(task) then Response(400, TaskRequiredContent)
        else Response(202, map["status" := JStr("accepted"),
                               "message" := JStr("Research task started"),
                               "task_id" := JStr(TaskId(seconds)),
                               "task" := task])
  }

  // ---------------------------------------------------------------------------
  // Lookup

  /** `task_id.replace("task_", "")`: the prefix that output names must start with. */
  function LookupPrefix(taskId: string): (prefix: string)
    ensures |prefix| <= |taskId|
  {
    ReplaceAll(taskId, TaskIdPrefix, "")
  }

  /** `[f for f in names if f.startswith(prefix)]` */
  function Matches(prefix: string, names: seq<string>): (ms: seq<string>)
    decreases |names|
  {
    if names == [] then []
    else
      var last := names[|names| - 1];
      var rest := Matches(prefix, names[..|names| - 1]);
      if StartsWith(last, prefix) then rest + [last] else rest
  }

  /** `p.rfind(c)`: the last index of `c` in `p`, or -1. */
  function LastIndexOf(p: string, c: char): (r: int)
    ensures -1 <= r < |p|
    decreases |p|
  {
    if p == [] then -1
    else if p[|p| - 1] == c then |p| - 1
    else LastIndexOf(p[..|p| - 1], c)
  }

  /** `rfind` finds `c` at its index, and no `c` after it. */
  lemma {:induction false} LastIndexOfSpec(p: string, c: char)
    ensures var r := LastIndexOf(p, c);
      && (r >= 0 ==> p[r] == c)
      && (forall j :: r < j < |p| ==> p[j] != c)
    decreases |p|
  {
    if p != [] && p[|p| - 1] != c {
      LastIndexOfSpec(p[..|p| - 1], c);
    }
  }

  /** `os.path.splitext(p)[1][1:]` on POSIX: the text after the last `.` of the
      last path component, provided that dot is not part of the component's leading
      run of dots; `""` otherwise. */
  function Extension(p: string): string {
    var sepIndex := LastIndexOf(p, '/');
    var dotIndex := LastIndexOf(p, '.');
    if dotIndex > sepIndex && !AllDots(p[sepIndex + 1..dotIndex]) then
      p[dotIndex + 1..]
    else
      ""
  }

  /** Every character of `s` is a dot: the loop of `splitext` that skips the
      leading dots of the last path component reaches the last dot. */
  predicate AllDots(s: string)
    decreases |s|
  {
    s == [] || (s[0] == '.' && AllDots(s[1..]))
  }

  lemma {:induction false} AllDotsSpec(s: string)
    ensures AllDots(s) <==> forall i :: 0 <= i < |s| ==> s[i] == '.'
    decreases |s|
  {
    if s != [] {
      AllDotsSpec(s[1..]);
      assert forall i :: 1 <= i < |s| ==> s[i] == s[1..][i - 1];
    }
  }

  /** An extension is a suffix that follows a dot and holds neither a dot nor a
      separator. */
  lemma ExtensionSpec(p: string)
    ensures var e := Extension(p);
      && |e| <= |p|
      && e == p[|p| - |e|..]
      && (e != [] ==> |e| < |p| && p[|p| - |e| - 1] == '.')
      && (forall i :: 0 <= i < |e| ==> e[i] != '.' && e[i] != '/')
  {
    ExtensionCases(p);
    if Extension(p) != [] {
      AfterLastDot(p);
    }
  }

  /** An extension is empty, or it is what follows a last dot that comes after
      the last separator. */
  lemma ExtensionCases(p: string)
    ensures Extension(p) == []
      || (LastIndexOf(p, '.') > LastIndexOf(p, '/')
          && Extension(p) == p[LastIndexOf(p, '.') + 1..])
  {
  }

  /** What follows the last dot, when that dot is after the last separator, is
      a suffix that follows a dot and holds neither a dot nor a separator. */
  lemma AfterLastDot(p: string)
    requires LastIndexOf(p, '.') > LastIndexOf(p, '/')
    ensures var d := LastIndexOf(p, '.'); var e := p[d + 1..];
      && e == p[|p| - |e|..]
      && |p| - |e| - 1 == d
      && p[d] == '.'
      && (forall i :: 0 <= i < |e| ==> e[i] != '.' && e[i] != '/')
  {
    LastIndexOfSpec(p, '/');
    LastIndexOfSpec(p, '.');
    var d := LastIndexOf(p, '.');
    var e := p[d + 1..];
    forall i | 0 <= i < |e| ensures e[i] != '.' && e[i] != '/' {
      assert e[i] == p[d + 1 + i];
    }
  }

  /** `os.path.join("outputs", f)` on POSIX. */
  function OutputPath(f: string): (path: string)
    ensures |f| <= |path| && path[|path| - |f|..] == f
  {
    if StartsWith(f, "/") then f else OutputDir + "/" + f
  }

  /** `{splitext(f)[1][1:]: join("outputs", f) for f in files}`: entries are
      inserted in order, so a later name overwrites an earlier one. */
  function FilePaths(files: seq<string>): map<string, Json>
    decreases |files|
  {
    if files == [] then map[]
    else
      var last := files[|files| - 1];
      FilePaths(files[..|files| - 1])[Extension(last) := JStr(OutputPath(last))]
  }

  /** `get_task_status(task_id)`, given how the output directory lists. */
  function GetTaskStatus(taskId: string, listing: Listing): (r: Response)
    ensures r.status == 500 <==> listing.Unlistable?
    ensures listing.Unlistable? ==> r == Response(500, ErrorContent(listing.reason))
    ensures r.status == 404 <==>
      || listing.Missing?
      || (listing.Entries? && forall f :: f in listing.names ==> !StartsWith(f, LookupPrefix(taskId)))
    ensures r.status == 200 <==>
      listing.Entries? && exists f :: f in listing.names && StartsWith(f, LookupPrefix(taskId))
  {
    match listing
    case Unlistable(reason) => Response(500, ErrorContent(reason))
    case Missing => Response(404, NotFoundContent)
    case Entries(names) =>
      var files := Matches(LookupPrefix(taskId), names);
      MatchesSpec(LookupPrefix(taskId), names);
      if files == [] then Response(404, NotFoundContent)
      else assert files[0] in files; Response(200, map["status" := JStr("completed"), "files" := JObject(FilePaths(files))])
  }

  // ---------------------------------------------------------------------------
  // Submission

  /** A missing or falsy `task` is refused with exactly the "Task is required" body. */
  lemma FalsyTaskRejected(fields: map<string, Json>, seconds: nat)
    ensures RunMultiAgents(Body(JObject(fields)), seconds) == Response(400, TaskRequiredContent)
        <==> !Truthy(TaskField(fields))
    ensures "task" !in fields ==> RunMultiAgents(Body(JObject(fields)), seconds).status == 400
  {
  }

  /** The id handed back by an accepted request is looked up by the decimal seconds
      alone, and those digits read back as the clock reading. */
  lemma {:induction false} LookupPrefixOfTaskId(seconds: nat)
    ensures LookupPrefix(TaskId(seconds)) == Decimal(seconds)
    ensures ParseDecimal(LookupPrefix(TaskId(seconds))) == seconds
  {
    var d := Decimal(seconds);
    ReplaceAllLeading(d, TaskIdPrefix, "");
    forall i: nat ensures !OccursAt(d, TaskIdPrefix, i) {
    }
    ReplaceAllNoOccurrence(d, TaskIdPrefix, "");
    DecimalRoundTrip(seconds);
  }

  /** A truthy task is accepted: status "accepted", the fixed message, the task echoed
      back, and the id `task_` + the clock reading in decimal, which is also what the
      lookup of that id searches for. */
  lemma AcceptedTask(fields: map<string, Json>, seconds: nat)
    requires Truthy(TaskField(fields))
    ensures var r := RunMultiAgents(Body(JObject(fields)), seconds);
      && r.status == 202
      && r.content.Keys == {"status", "message", "task_id", "task"}
      && r.content["status"] == JStr("accepted")
      && r.content["task"] == fields["task"]
      && r.content["message"] == JStr("Research task started")
      && r.content["task_id"] == JStr(TaskIdPrefix + Decimal(seconds))
      && LookupPrefix(r.content["task_id"].s) == Decimal(seconds)
      && ParseDecimal(LookupPrefix(r.content["task_id"].s)) == seconds
  {
    AcceptedKeys(fields, seconds);
    AcceptedValues(fields, seconds);
    AcceptedLookup(fields, seconds);
  }

  /** An accepted answer has exactly the keys status, message, task_id and task. */
  lemma AcceptedKeys(fields: map<string, Json>, seconds: nat)
    requires Truthy(TaskField(fields))
    ensures RunMultiAgents(Body(JObject(fields)), seconds).content.Keys
         == {"status", "message", "task_id", "task"}
  {
  }

  /** The status code and the four values of an accepted answer. */
  lemma AcceptedValues(fields: map<string, Json>, seconds: nat)
    requires Truthy(TaskField(fields))
    ensures var r := RunMultiAgents(Body(JObject(fields)), seconds);
      && r.status == 202
      && r.content["status"] == JStr("accepted")
      && r.content["task"] == fields["task"]
      && r.content["message"] == JStr("Research task started")
      && r.content["task_id"] == JStr(TaskIdPrefix + Decimal(seconds))
  {
  }

  /** The id of an accepted answer is looked up by the clock reading in decimal. */
  lemma AcceptedLookup(fields: map<string, Json>, seconds: nat)
    requires Truthy(TaskField(fields))
    ensures var r := RunMultiAgents(Body(JObject(fields)), seconds);
      && r.content["task_id"].JStr?
      && LookupPrefix(r.content["task_id"].s) == Decimal(seconds)
      && ParseDecimal(LookupPrefix(r.content["task_id"].s)) == seconds
  {
    AcceptedValues(fields, seconds);
    LookupPrefixOfTaskId(seconds);
  }

  /** A body that is not a JSON object fails at `data.get` and is answered 500 with
      the `AttributeError` message. */
  lemma NonObjectBodyFails(data: Json, seconds: nat)
    requires !data.JObject?
    ensures RunMultiAgents(Body(data), seconds) == Response(500, ErrorContent(NoGetMessage(data)))
  {
  }

  /** Only `task` is read: `report_type` and every other field of the body leave
      the answer as it is, since the request object built from them is never used. */
  lemma OnlyTaskIsRead(f1: map<string, Json>, f2: map<string, Json>, seconds: nat)
    requires TaskField(f1) == TaskField(f2)
    ensures RunMultiAgents(Body(JObject(f1)), seconds) == RunMultiAgents(Body(JObject(f2)), seconds)
  {
  }

  // ---------------------------------------------------------------------------
  // The lookup prefix

  /** `replace` removes an occurrence of "task_" wherever it stands: text before it
      that holds no `t` is kept, and the rest of the id is looked up in turn. Applied
      again to `b`, this removes every occurrence. */
  lemma LookupRemovesOccurrence(a: string, b: string)
    requires 't' !in a
    ensures LookupPrefix(a + TaskIdPrefix + b) == a + LookupPrefix(b)
  {
    assert a + TaskIdPrefix + b == a + (TaskIdPrefix + b);
    ReplaceAllSkips(a, TaskIdPrefix + b, TaskIdPrefix, "");
    ReplaceAllLeading(b, TaskIdPrefix, "");
  }

  /** A doubled prefix is removed twice: "task_task_5" is looked up as "5". */
  lemma LookupDoubledPrefix()
    ensures LookupPrefix(TaskIdPrefix + TaskIdPrefix + "5") == "5"
  {
    LookupRemovesOccurrence([], TaskIdPrefix + "5");
    assert [] + TaskIdPrefix + (TaskIdPrefix + "5") == TaskIdPrefix + TaskIdPrefix + "5";
    LookupRemovesOccurrence([], "5");
    assert [] + TaskIdPrefix + "5" == TaskIdPrefix + "5";
    assert "5"[0] != TaskIdPrefix[0];
    ReplaceAllCopies("5", TaskIdPrefix, "");
    assert "5"[1..] == [];
  }

  /** Text that a removal brings together is not scanned again: the prefix of
      "tatask_sk_" is "task_". */
  lemma LookupNotRescanned()
    ensures LookupPrefix("ta" + TaskIdPrefix + "sk_") == TaskIdPrefix
  {
    var tail := "a" + TaskIdPrefix + "sk_";
    var s := "t" + tail;
    assert s == "ta" + TaskIdPrefix + "sk_";
    LookupSkipsLeadingT(tail);
    LookupRemovesOccurrence("a", "sk_");
    LookupKeepsSk();
    assert "t" + ("a" + "sk_") == TaskIdPrefix;
  }

  /** A 't' whose third character is not an 's' does not start a prefix and
      is kept. */
  lemma LookupSkipsLeadingT(tail: string)
    requires |tail| >= 2 && tail[1] != 's'
    ensures LookupPrefix("t" + tail) == "t" + LookupPrefix(tail)
  {
    var s := "t" + tail;
    assert s[2] != TaskIdPrefix[2];
    assert !StartsWith(s, TaskIdPrefix) by {
      if |TaskIdPrefix| <= |s| { assert s[..|TaskIdPrefix|][2] == s[2]; }
    }
    ReplaceAllNoMatchHere(s, TaskIdPrefix, "");
    assert s[1..] == tail;
  }

  /** "sk_" holds no 't' and is returned unchanged. */
  lemma LookupKeepsSk()
    ensures LookupPrefix("sk_") == "sk_"
  {
    ReplaceAllSkips("sk_", [], TaskIdPrefix, "");
    assert "sk_" + [] == "sk_";
  }

  // ---------------------------------------------------------------------------
  // Matching names

  /** The matches are exactly the listed names that start with the prefix. */
  lemma {:induction false} MatchesSpec(prefix: string, names: seq<string>)
    ensures |Matches(prefix, names)| <= |names|
    ensures forall f :: f in Matches(prefix, names) <==> f in names && StartsWith(f, prefix)
    decreases |names|
  {
    if names != [] {
      var init := names[..|names| - 1];
      MatchesSpec(prefix, init);
      assert names == init + [names[|names| - 1]];
    }
  }

  /** Every answer to a lookup with no matching name is the exact 404 body, and an
      output directory that does not exist has none. */
  lemma NotFound(taskId: string, listing: Listing)
    requires listing.Missing? || (listing.Entries? && forall f :: f in listing.names ==> !StartsWith(f, LookupPrefix(taskId)))
    ensures GetTaskStatus(taskId, listing) == Response(404, NotFoundContent)
  {
  }

  /** `names[i]` is a match with extension `k`, and no later match has extension `k`. */
  predicate LastMatchWithExtension(prefix: string, names: seq<string>, k: string, i: int) {
    && 0 <= i < |names|
    && StartsWith(names[i], prefix)
    && Extension(names[i]) == k
    && forall j :: i < j < |names| && StartsWith(names[j], prefix) ==> Extension(names[j]) != k
  }

  /** One more listed name: a match adds or overwrites its extension's entry, any
      other name changes nothing. */
  lemma FilePathsStep(prefix: string, names: seq<string>)
    requires names != []
    ensures var x := names[|names| - 1];
      var m0 := FilePaths(Matches(prefix, names[..|names| - 1]));
      FilePaths(Matches(prefix, names))
        == if StartsWith(x, prefix) then m0[Extension(x) := JStr(OutputPath(x))] else m0
  {
    var x := names[|names| - 1];
    var ms := Matches(prefix, names[..|names| - 1]);
    if StartsWith(x, prefix) {
      assert (ms + [x])[..|ms + [x]| - 1] == ms;
    }
  }

  /** The keys of the extension map are exactly the extensions of the matching names. */
  lemma {:induction false} FilePathsKeys(prefix: string, names: seq<string>)
    ensures forall k :: k in FilePaths(Matches(prefix, names)) <==>
      exists i :: 0 <= i < |names| && StartsWith(names[i], prefix) && Extension(names[i]) == k
    decreases |names|
  {
    if names != [] {
      var n := |names| - 1;
      var init := names[..n];
      var x := names[n];
      var m0 := FilePaths(Matches(prefix, init));
      var m := FilePaths(Matches(prefix, names));
      FilePathsKeys(prefix, init);
      FilePathsStep(prefix, names);
      assert forall i :: 0 <= i < n ==> names[i] == init[i];
      forall k ensures k in m <==>
        exists i :: 0 <= i < |names| && StartsWith(names[i], prefix) && Extension(names[i]) == k
      {
        if k in m0 {
          var i :| 0 <= i < n && StartsWith(init[i], prefix) && Extension(init[i]) == k;
          assert names[i] == init[i];
        } else if k in m {
          assert StartsWith(x, prefix) && Extension(x) == k;
        }
      }
    }
  }

  /** Each key of the extension map is bound to the path of the last matching name
      with that extension, in listing order. */
  lemma {:induction false} FilePathsLastWins(prefix: string, names: seq<string>, k: string)
    requires k in FilePaths(Matches(prefix, names))
    ensures exists i :: (LastMatchWithExtension(prefix, names, k, i)
      && FilePaths(Matches(prefix, names))[k] == JStr(OutputPath(names[i])))
    decreases |names|
  {
    assert names != [];
    var n := |names| - 1;
    var init := names[..n];
    var x := names[n];
    FilePathsStep(prefix, names);
    var m0 := FilePaths(Matches(prefix, init));
    if StartsWith(x, prefix) && k == Extension(x) {
      assert LastMatchWithExtension(prefix, names, k, n);
    } else {
      assert k in m0;
      FilePathsLastWins(prefix, init, k);
      var i :| LastMatchWithExtension(prefix, init, k, i) && m0[k] == JStr(OutputPath(init[i]));
      LastMatchExtends(prefix, names, k, i);
    }
  }

  /** A last match stays the last one when a name that is not a match with the same
      extension is listed after it. */
  lemma LastMatchExtends(prefix: string, names: seq<string>, k: string, i: int)
    requires names != []
    requires LastMatchWithExtension(prefix, names[..|names| - 1], k, i)
    requires !StartsWith(names[|names| - 1], prefix) || Extension(names[|names| - 1]) != k
    ensures LastMatchWithExtension(prefix, names, k, i)
    ensures names[i] == names[..|names| - 1][i]
  {
  }

  /** A lookup that finds matches answers 200 "completed" with the extension map of
      the matches: one key per extension found, each bound to the path of the last
      match that has it. */
  lemma Found(taskId: string, names: seq<string>)
    requires exists f :: f in names && StartsWith(f, LookupPrefix(taskId))
    ensures var r := GetTaskStatus(taskId, Entries(names));
      var prefix := LookupPrefix(taskId);
      && r.status == 200
      && r.content.Keys == {"status", "files"}
      && r.content["status"] == JStr("completed")
      && r.content["files"].JObject?
      && (forall k :: k in r.content["files"].fields
            <==> exists i :: 0 <= i < |names| && StartsWith(names[i], prefix) && Extension(names[i]) == k)
      && (forall k :: k in r.content["files"].fields ==>
            exists i :: LastMatchWithExtension(prefix, names, k, i)
              && r.content["files"].fields[k] == JStr(OutputPath(names[i])))
  {
    FoundAnswer(taskId, names);
    FoundKeys(taskId, names);
    FoundLastWins(taskId, names);
  }

  /** With a match, the answer is 200 with the extension map of the matches. */
  lemma FoundAnswer(taskId: string, names: seq<string>)
    requires exists f :: f in names && StartsWith(f, LookupPrefix(taskId))
    ensures GetTaskStatus(taskId, Entries(names))
         == Response(200, map["status" := JStr("completed"),
                              "files" := JObject(FilePaths(Matches(LookupPrefix(taskId), names)))])
  {
    var prefix := LookupPrefix(taskId);
    MatchesSpec(prefix, names);
    var f :| f in names && StartsWith(f, prefix);
    assert f in Matches(prefix, names);
  }

  /** The keys of a 200 answer's file map are the extensions of the matches. */
  lemma FoundKeys(taskId: string, names: seq<string>)
    requires exists f :: f in names && StartsWith(f, LookupPrefix(taskId))
    ensures var r := GetTaskStatus(taskId, Entries(names));
      && r.content["files"].JObject?
      && forall k :: k in r.content["files"].fields
           <==> exists i :: 0 <= i < |names| && StartsWith(names[i], LookupPrefix(taskId)) && Extension(names[i]) == k
  {
    FoundAnswer(taskId, names);
    FilePathsKeys(LookupPrefix(taskId), names);
  }

  /** Each key of a 200 answer's file map holds the path of the last match with
      that extension. */
  lemma FoundLastWins(taskId: string, names: seq<string>)
    requires exists f :: f in names && StartsWith(f, LookupPrefix(taskId))
    ensures var r := GetTaskStatus(taskId, Entries(names));
      && r.content["files"].JObject?
      && forall k :: k in r.content["files"].fields ==>
           exists i :: LastMatchWithExtension(LookupPrefix(taskId), names, k, i)
             && r.content["files"].fields[k] == JStr(OutputPath(names[i]))
  {
    var prefix := LookupPrefix(taskId);
    var m := FilePaths(Matches(prefix, names));
    FoundAnswer(taskId, names);
    forall k | k in m
      ensures exists i :: (LastMatchWithExtension(prefix, names, k, i)
        && m[k] == JStr(OutputPath(names[i])))
    {
      FilePathsLastWins(prefix, names, k);
    }
  }

  // ---------------------------------------------------------------------------
  // Extensions and paths

  /** `splitext` of "stem.ext" gives "ext" when the stem has a character other than
      a dot and neither part holds a separator. */
  lemma ExtensionOfName(stem: string, ext: string)
    requires forall i :: 0 <= i < |stem| ==> stem[i] != '/'
    requires exists i :: 0 <= i < |stem| && stem[i] != '.'
    requires forall i :: 0 <= i < |ext| ==> ext[i] != '.' && ext[i] != '/'
    ensures Extension(stem + "." + ext) == ext
  {
    var p := stem + "." + ext;
    var n := |stem|;
    assert p[n] == '.';
    assert forall j :: n < j < |p| ==> p[j] == ext[j - n - 1];
    LastIndexOfSpec(p, '.');
    LastIndexOfSpec(p, '/');
    assert LastIndexOf(p, '.') == n;
    assert LastIndexOf(p, '/') == -1;
    var i :| 0 <= i < |stem| && stem[i] != '.';
    assert p[0..n] == stem;
    AllDotsSpec(stem);
    assert p[n + 1..] == ext;
  }

  /** A name whose only dots lead it ("README", ".bashrc", "..x") has no extension. */
  lemma ExtensionOfDotfile(dots: string, rest: string)
    requires forall i :: 0 <= i < |dots| ==> dots[i] == '.'
    requires forall i :: 0 <= i < |rest| ==> rest[i] != '.' && rest[i] != '/'
    ensures Extension(dots + rest) == []
  {
    var p := dots + rest;
    LastIndexOfAbsent(rest, '/');
    LastIndexOfAbsent(rest, '.');
    LastIndexOfAbsent(dots, '/');
    LastIndexOfAppend(dots, rest, '/');
    LastIndexOfAppend(dots, rest, '.');
    LastIndexOfSpec(dots, '.');
    var dot := LastIndexOf(p, '.');
    if dot >= 0 {
      assert p[0..dot] == dots[0..dot];
      AllDotsSpec(dots[0..dot]);
    }
  }

  /** `rfind` on a concatenation: the last occurrence in the second part if there
      is one, else the last in the first part. */
  lemma {:induction false} LastIndexOfAppend(a: string, b: string, c: char)
    ensures LastIndexOf(a + b, c)
         == if LastIndexOf(b, c) >= 0 then |a| + LastIndexOf(b, c) else LastIndexOf(a, c)
    decreases |b|
  {
    if b == [] {
      assert a + b == a;
    } else {
      var b' := b[..|b| - 1];
      assert (a + b)[..|a + b| - 1] == a + b';
      LastIndexOfAppend(a, b', c);
    }
  }

  /** In "outputs/" the last '/' is at index 7 and there is no '.'. */
  lemma OutputDirIndices()
    ensures LastIndexOf(OutputDir + "/", '/') == 7
    ensures LastIndexOf(OutputDir + "/", '.') == -1
  {
    var dir := OutputDir + "/";
    LastIndexOfSpec(dir, '.');
    LastIndexOfSpec(dir, '/');
    assert dir[7] == '/';
    assert forall i :: 0 <= i < |dir| ==> dir[i] != '.';
  }

  /** `rfind` of a character that does not occur is -1. */
  lemma {:induction false} LastIndexOfAbsent(p: string, c: char)
    requires forall i :: 0 <= i < |p| ==> p[i] != c
    ensures LastIndexOf(p, c) == -1
    decreases |p|
  {
    if p != [] {
      LastIndexOfAbsent(p[..|p| - 1], c);
    }
  }

  /** A path without a dot has no extension. */
  lemma ExtensionWithoutDot(p: string)
    requires LastIndexOf(p, '.') == -1
    ensures Extension(p) == []
  {
  }

  /** The extension of `dir + f` when the last separator ends `dir` and the last dot
      is that of `f`. */
  lemma ExtensionShifted(dir: string, f: string, dot: int)
    requires 0 <= dot < |f|
    requires LastIndexOf(f, '/') == -1 && LastIndexOf(f, '.') == dot
    requires LastIndexOf(dir + f, '/') == |dir| - 1 && LastIndexOf(dir + f, '.') == |dir| + dot
    ensures Extension(dir + f) == Extension(f)
  {
    assert (dir + f)[|dir|..|dir| + dot] == f[0..dot];
    assert (dir + f)[|dir| + dot + 1..] == f[dot + 1..];
  }

  /** Prefixing a name that holds no '/' with a directory that ends in '/' and holds
      no '.' leaves its extension as it is. */
  lemma ExtensionUnderDirectory(dir: string, f: string)
    requires dir != [] && LastIndexOf(dir, '/') == |dir| - 1 && LastIndexOf(dir, '.') == -1
    requires forall i :: 0 <= i < |f| ==> f[i] != '/'
    ensures Extension(dir + f) == Extension(f)
  {
    LastIndexOfAbsent(f, '/');
    LastIndexOfAppend(dir, f, '/');
    LastIndexOfAppend(dir, f, '.');
    var dot := LastIndexOf(f, '.');
    if dot >= 0 {
      ExtensionShifted(dir, f, dot);
    } else {
      ExtensionWithoutDot(f);
      ExtensionWithoutDot(dir + f);
    }
  }

  /** A listed name (which holds no '/') is stored under "outputs/", and the stored
      path has the very extension it is filed under. */
  lemma ExtensionUnderOutputs(f: string)
    requires forall i :: 0 <= i < |f| ==> f[i] != '/'
    ensures OutputPath(f) == OutputDir + "/" + f
    ensures Extension(OutputPath(f)) == Extension(f)
  {
    assert !StartsWith(f, "/") by { if |f| > 0 { assert f[0] != '/'; } }
    OutputDirIndices();
    ExtensionUnderDirectory(OutputDir + "/", f);
  }

  /** When no listed name holds a '/', every value of a 200 answer's file map is a
      path under "outputs/" whose own extension is the key it is filed under. */
  lemma FoundPathsMatchKeys(taskId: string, names: seq<string>)
    requires forall f, i :: f in names && 0 <= i < |f| ==> f[i] != '/'
    requires exists f :: f in names && StartsWith(f, LookupPrefix(taskId))
    ensures var files := GetTaskStatus(taskId, Entries(names)).content["files"].fields;
      forall k :: k in files ==>
        exists f :: f in names && StartsWith(f, LookupPrefix(taskId))
          && files[k] == JStr(OutputDir + "/" + f) && Extension(OutputDir + "/" + f) == k
  {
    Found(taskId, names);
    var files := GetTaskStatus(taskId, Entries(names)).content["files"].fields;
    var prefix := LookupPrefix(taskId);
    forall k | k in files
      ensures exists f :: (f in names && StartsWith(f, prefix)
          && files[k] == JStr(OutputDir + "/" + f) && Extension(OutputDir + "/" + f) == k)
    {
      var i :| LastMatchWithExtension(prefix, names, k, i) && files[k] == JStr(OutputPath(names[i]));
      ExtensionUnderOutputs(names[i]);
    }
  }
}
