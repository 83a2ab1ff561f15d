/** The `Call` bodies of the `bot commands` subcommands: `add`, `remove`,
    `edit`, `sync`, `file` and `list`. Each handler is a function from its
    arguments and what the outside world supplies (the configured `file` path,
    the YAML query engine, the line splitter) to an `Outcome`: the effects it
    asks for, in order, and whether it succeeds. */
module Twitch {
  import opened Bytes
  import opened Sorting

  /** What a handler asks of the world outside it. */
  datatype Effect =
    | Chat(argv: seq<Bytes>)   // `chat.Call(x, argv...)`: forwarded to the `chat` program
    | Println(line: Bytes)     // `fmt.Println(line)`
    | OpenEditor(path: Bytes)  // `file.Edit(path)`, whose error is discarded
    | Log(bodyLength: nat)     // `x.Log("Message body length: %v", n)`

  datatype Error =
    | Usage                      // `x.UsageError()`
    | MissingConfig(key: Bytes)  // `x.Caller.MissingConfig(key)`
    | QueryFailed(reason: Bytes) // the error of the YAML query, passed on unchanged
    | SizeLimit(message: string) // the `fmt.Errorf` of `sync`
    | IndexPanic                 // `args[0][0]` on an empty string panics

  datatype Status = Success | Failure(error: Error)

  /** The effects a handler asks for, in order, and how it ends. */
  datatype Outcome = Outcome(effects: seq<Effect>, status: Status)

  /** What `yq.EvaluateToString(expression, path)` gives back. */
  datatype Query = Yield(text: Bytes) | QueryError(reason: Bytes)

  /** The YAML query engine, applied to an expression and a file path. */
  type Yq = (Bytes, Bytes) -> Query

  /** `to.Lines`: splits a buffer into lines. */
  type LineSplitter = Bytes -> seq<Bytes>

  const Bang: byte := '!'
  const Dash: byte := '-'
  const Dot: Bytes := "."
  const Space: Bytes := " "
  const AddCommand: Bytes := "!addcommand"
  const RmCommand: Bytes := "!rmcommand"
  const EditCommand: Bytes := "!editcommand"
  const FileKey: Bytes := "file"
  const EditParam: Bytes := "edit"
  const KeysQuery: Bytes := "keys"
  /** What `list` puts between two keys. */
  const ListSeparator: Bytes := " !"
  /** The YAML sequence marker that `list` strips. */
  const Marker: Bytes := "- "
  /** The smallest body length `sync` refuses. */
  const MaxBodyLength: nat := 380
  const TooLongMessage: string := "Twitch commands must be 380 bytes or less"

  function Fail(e: Error): Outcome
  {
    Outcome([], Failure(e))
  }

  function Done(effects: seq<Effect>): Outcome
  {
    Outcome(effects, Success)
  }

  /** No argument vector is handed to the `chat` program. */
  predicate ForwardsNothing(r: Outcome)
  {
    forall e :: e in r.effects ==> !e.Chat?
  }

  // ---------------------------------------------------------------------------
  // Command-name normalisation (`remove`, `edit`)

  /** Prepends `!` to a command name that does not start with one. Go reads
      `args[0][0]`, so the name must not be empty. */
  function Norm(name: Bytes): (r: Bytes)
    requires |name| > 0
    ensures |r| > 0 && r[0] == Bang
    ensures r == name || r == [Bang] + name
  {
    if name[0] != Bang then [Bang] + name else name
  }

  /** A name is left as it is exactly when it already starts with `!`. */
  lemma NormFixesBangNames(name: Bytes)
    requires |name| > 0
    ensures Norm(name) == name <==> name[0] == Bang
  {
    if name[0] != Bang {
      assert |Norm(name)| == |name| + 1;
    }
  }

  lemma NormIdempotent(name: Bytes)
    requires |name| > 0
    ensures Norm(Norm(name)) == Norm(name)
  {
  }

  /** Two names are normalised alike exactly when they are equal or one is the
      other with a `!` put in front of it. */
  lemma NormCollision(a: Bytes, b: Bytes)
    requires |a| > 0 && |b| > 0
    ensures Norm(a) == Norm(b) <==>
      a == b || (a == [Bang] + b && b[0] != Bang) || (b == [Bang] + a && a[0] != Bang)
  {
    if Norm(a) == Norm(b) {
      if a[0] != Bang && b[0] != Bang {
        assert a == ([Bang] + a)[1..] == ([Bang] + b)[1..] == b;
      } else if a[0] == Bang && b[0] == Bang {
      } else if a[0] == Bang {
        assert a == [Bang] + b;
      } else {
        assert b == [Bang] + a;
      }
    }
  }

  // ---------------------------------------------------------------------------
  // The handlers

  /** `add <command> <body...>`: forwards `!addcommand`, the name exactly as
      given and the body words joined by spaces. */
  function Add(args: seq<Bytes>): (r: Outcome)
    ensures r.status == Success <==> |args| >= 2
    ensures r.status != Success ==> r == Fail(Usage)
    ensures r.status == Success ==>
      r.effects == [Chat([AddCommand, args[0], Join(args[1..], Space)])]
  {
    if |args| < 2 then Fail(Usage)
    else
      var msg := Join(args[1..], Space);
      Done([Chat([AddCommand, args[0], msg])])
  }

  /** `remove <command>`: forwards `!rmcommand` and the normalised name;
      further arguments are ignored. */
  function Remove(args: seq<Bytes>): (r: Outcome)
    ensures |args| == 0 ==> r == Fail(Usage)
    ensures |args| > 0 && |args[0]| == 0 ==> r == Fail(IndexPanic)
    ensures r.status == Success <==> |args| > 0 && |args[0]| > 0
    ensures r.status == Success ==> r.effects == [Chat([RmCommand, Norm(args[0])])]
  {
    if |args| < 1 then Fail(Usage)
    else if |args[0]| == 0 then Fail(IndexPanic)
    else Done([Chat([RmCommand, Norm(args[0])])])
  }

  /** `edit <command> [body...]`: forwards `!editcommand`, the normalised name
      and the body words joined by spaces (empty when there are none). */
  function Edit(args: seq<Bytes>): (r: Outcome)
    ensures |args| == 0 ==> r == Fail(Usage)
    ensures |args| > 0 && |args[0]| == 0 ==> r == Fail(IndexPanic)
    ensures r.status == Success <==> |args| > 0 && |args[0]| > 0
    ensures r.status == Success ==>
      r.effects == [Chat([EditCommand, Norm(args[0]), Join(args[1..], Space)])]
  {
    if |args| < 1 then Fail(Usage)
    else if |args[0]| == 0 then Fail(IndexPanic)
    else
      var msg := Join(args[1..], Space);
      Done([Chat([EditCommand, Norm(args[0]), msg])])
  }

  /** `sync <key>`: looks the key up in the configured YAML file and, when the
      body is short enough, logs its length and edits the command to it. The
      framework guarantees at least one argument. */
  function Sync(args: seq<Bytes>, path: Bytes, yq: Yq): (r: Outcome)
    requires |args| >= 1
    ensures |path| == 0 ==> r == Fail(MissingConfig(FileKey))
    ensures |path| > 0 && yq(Dot + args[0], path).QueryError? ==>
      r == Fail(QueryFailed(yq(Dot + args[0], path).reason))
    ensures |path| > 0 && yq(Dot + args[0], path).Yield? ==>
      var msg := yq(Dot + args[0], path).text;
      (|msg| >= MaxBodyLength ==> r == Fail(SizeLimit(TooLongMessage))) &&
      (|msg| < MaxBodyLength ==>
        r.effects == [Log(|msg|)] + Edit([args[0], msg]).effects &&
        r.status == Edit([args[0], msg]).status)
  {
    if |path| == 0 then Fail(MissingConfig(FileKey))
    else
      match yq(Dot + args[0], path)
      case QueryError(reason) => Fail(QueryFailed(reason))
      case Yield(msg) =>
        if |msg| >= MaxBodyLength then Fail(SizeLimit(TooLongMessage))
        else
          var edited := Edit([args[0], msg]);
          Outcome([Log(|msg|)] + edited.effects, edited.status)
  }

  /** `file [edit]`: opens the configured path in the editor when the first
      argument is `edit`, and prints the path in every case, even when it is
      empty. It never fails. */
  function File(args: seq<Bytes>, path: Bytes): (r: Outcome)
    ensures r.status == Success
    ensures OpenEditor(path) in r.effects <==> |args| > 0 && args[0] == EditParam
    ensures |r.effects| > 0 && r.effects[|r.effects| - 1] == Println(path)
    ensures forall e :: e in r.effects ==> e == OpenEditor(path) || e == Println(path)
    ensures |r.effects| == (if |args| > 0 && args[0] == EditParam then 2 else 1)
  {
    var open := if |args| > 0 && args[0] == EditParam then [OpenEditor(path)] else [];
    Done(open + [Println(path)])
  }

  /** The line `list` prints for the lines of the `keys` query: the lines
      sorted, joined with " !", every "- " removed, and one `!` in front. */
  function ListText(lines: seq<Bytes>): (text: Bytes)
    ensures |text| > 0 && text[0] == Bang
    ensures lines == [] ==> text == [Bang]
  {
    [Bang] + Replace(Join(Sort(lines), ListSeparator), Marker, [])
  }

  /** `list`: prints the keys of the configured YAML file on one line. */
  function List(path: Bytes, yq: Yq, toLines: LineSplitter): (r: Outcome)
    ensures |path| == 0 ==> r == Fail(MissingConfig(FileKey))
    ensures |path| > 0 && yq(KeysQuery, path).QueryError? ==>
      r == Fail(QueryFailed(yq(KeysQuery, path).reason))
    ensures |path| > 0 && yq(KeysQuery, path).Yield? ==>
      r == Done([Println(ListText(toLines(yq(KeysQuery, path).text)))])
  {
    if |path| == 0 then Fail(MissingConfig(FileKey))
    else
      match yq(KeysQuery, path)
      case QueryError(reason) => Fail(QueryFailed(reason))
      case Yield(buf) => Done([Println(ListText(toLines(buf)))])
  }

  // ---------------------------------------------------------------------------
  // Properties relating the handlers

  /** A handler that fails hands nothing to the `chat` program. */
  lemma FailuresForwardNothing(args: seq<Bytes>, path: Bytes, yq: Yq, toLines: LineSplitter)
    ensures Add(args).status != Success ==> ForwardsNothing(Add(args))
    ensures Remove(args).status != Success ==> ForwardsNothing(Remove(args))
    ensures Edit(args).status != Success ==> ForwardsNothing(Edit(args))
    ensures |args| >= 1 && Sync(args, path, yq).status != Success ==>
      ForwardsNothing(Sync(args, path, yq))
    ensures List(path, yq, toLines).status != Success ==>
      ForwardsNothing(List(path, yq, toLines))
  {
    if |args| >= 1 && |path| > 0 && yq(Dot + args[0], path).Yield? {
      var msg := yq(Dot + args[0], path).text;
      assert Edit([args[0], msg]).status != Success ==> Edit([args[0], msg]).effects == [];
    }
  }

  /** `remove` treats a name with and without its leading `!` alike. */
  lemma RemoveIgnoresBang(name: Bytes, rest: seq<Bytes>)
    requires |name| > 0 && name[0] != Bang
    ensures Remove([name] + rest) == Remove([[Bang] + name] + rest)
    ensures Remove([name] + rest) == Done([Chat([RmCommand, [Bang] + name])])
  {
  }

  /** `edit` treats a name with and without its leading `!` alike. */
  lemma EditIgnoresBang(name: Bytes, rest: seq<Bytes>)
    requires |name| > 0 && name[0] != Bang
    ensures Edit([name] + rest) == Edit([[Bang] + name] + rest)
  {
    assert ([name] + rest)[1..] == rest == ([[Bang] + name] + rest)[1..];
  }

  /** `add` forwards the name as given, where `edit` would prepend `!`. */
  lemma AddDoesNotNormalize(name: Bytes, body: Bytes)
    requires |name| > 0 && name[0] != Bang
    ensures Add([name, body]).effects[0].argv[1] == name
    ensures Edit([name, body]).effects[0].argv[1] == [Bang] + name
  {
  }

  /** `edit` with a name alone forwards an empty body and succeeds. */
  lemma EditNameOnly(name: Bytes)
    requires |name| > 0
    ensures Edit([name]) == Done([Chat([EditCommand, Norm(name), []])])
  {
  }

  /** The body `add` and `edit` forward is every remaining word, in order,
      with exactly one space between two words. */
  lemma BodyJoinsWords(words: seq<Bytes>, w: Bytes)
    requires |words| > 0
    ensures Join(words + [w], Space) == Join(words, Space) + Space + w
  {
    JoinAppend(words, [w], Space);
  }

  /** The checks of `sync` come in order: missing configuration before the
      query, the query error before the size limit. */
  lemma SyncChecksInOrder(args: seq<Bytes>, path: Bytes, yq: Yq)
    requires |args| >= 1
    ensures |path| == 0 ==> Sync(args, path, yq).status == Failure(MissingConfig(FileKey))
    ensures |path| > 0 && yq(Dot + args[0], path).QueryError? ==>
      Sync(args, path, yq).status == Failure(QueryFailed(yq(Dot + args[0], path).reason))
    ensures Sync(args, path, yq).status.Failure? && Sync(args, path, yq).status.error.SizeLimit? <==>
      |path| > 0 && yq(Dot + args[0], path).Yield? && |yq(Dot + args[0], path).text| >= MaxBodyLength
  {
  }

  /** A body of 379 bytes goes through; one of 380 bytes is refused. */
  lemma SyncSizeBoundary(key: Bytes, path: Bytes, yq: Yq)
    requires |key| > 0 && |path| > 0 && yq(Dot + key, path).Yield?
    ensures |yq(Dot + key, path).text| == MaxBodyLength - 1 ==>
      Sync([key], path, yq) == Outcome(
        [Log(MaxBodyLength - 1), Chat([EditCommand, Norm(key), yq(Dot + key, path).text])],
        Success)
    ensures |yq(Dot + key, path).text| == MaxBodyLength ==>
      Sync([key], path, yq) == Fail(SizeLimit(TooLongMessage))
  {
    var msg := yq(Dot + key, path).text;
    assert [key, msg][1..] == [msg];
  }

  /** A successful `sync` logs the body length, then edits the raw key to the
      body exactly as the query produced it. */
  lemma SyncDelegatesToEdit(args: seq<Bytes>, path: Bytes, yq: Yq)
    requires |args| >= 1 && |args[0]| > 0 && |path| > 0
    requires yq(Dot + args[0], path).Yield? && |yq(Dot + args[0], path).text| < MaxBodyLength
    ensures Sync(args, path, yq) == Outcome(
      [Log(|yq(Dot + args[0], path).text|),
       Chat([EditCommand, Norm(args[0]), yq(Dot + args[0], path).text])],
      Success)
  {
    var msg := yq(Dot + args[0], path).text;
    assert [args[0], msg][1..] == [msg];
  }

  /** The keys of the YAML file as `keys` prints them, one "- " line each. */
  function Marked(keys: seq<Bytes>): (lines: seq<Bytes>)
    ensures |lines| == |keys|
  {
    if |keys| == 0 then [] else [Marker + keys[0]] + Marked(keys[1..])
  }

  /** A key that the stripping of "- " leaves intact: it contains no "- " and
      does not end in '-' (which the following " !" would turn into "- "). */
  predicate PlainKey(k: Bytes)
  {
    !Contains(k, Marker) && (|k| == 0 || k[|k| - 1] != Dash)
  }

  ghost predicate PlainKeys(keys: seq<Bytes>)
  {
    forall k :: k in keys ==> PlainKey(k)
  }

  /** Sorting the marked lines sorts the keys, since the common "- " prefix
      does not change how two keys compare. */
  lemma {:induction false} InsertMarked(x: Bytes, keys: seq<Bytes>)
    ensures Insert(Marker + x, Marked(keys)) == Marked(Insert(x, keys))
  {
    if |keys| > 0 {
      LessEqCommonPrefix(Marker, x, keys[0]);
      InsertMarked(x, keys[1..]);
      assert Marked(keys)[1..] == Marked(keys[1..]);
      if !LessEq(x, keys[0]) {
        assert Marked(Insert(x, keys)) == [Marker + keys[0]] + Marked(Insert(x, keys[1..]));
      }
    }
  }

  lemma {:induction false} SortMarked(keys: seq<Bytes>)
    ensures Sort(Marked(keys)) == Marked(Sort(keys))
  {
    if |keys| > 0 {
      SortMarked(keys[1..]);
      assert Marked(keys)[1..] == Marked(keys[1..]);
      InsertMarked(keys[0], Sort(keys[1..]));
    }
  }

  /** Stripping "- " passes over a plain key: no occurrence starts inside it,
      whether within the key or across its end. */
  lemma KeyPassesStrip(k: Bytes, tail: Bytes)
    requires PlainKey(k)
    ensures Replace(k + tail, Marker, []) == k + Replace(tail, Marker, [])
  {
    forall i: nat | i < |k| ensures !OccursAt(k + tail, Marker, i) {
      if i + |Marker| <= |k| {
        assert (k + tail)[i..i + |Marker|] == k[i..i + |Marker|];
        assert !OccursAt(k, Marker, i);
      } else if i + |Marker| <= |k + tail| {
        assert (k + tail)[i] == k[|k| - 1] != Dash;
      }
    }
    ReplaceAppend(k, tail, Marker, []);
  }

  /** Stripping "- " removes the marker of the last marked line and leaves
      the plain key. */
  lemma StripLastLine(k: Bytes)
    requires PlainKey(k)
    ensures Replace(Marker + k, Marker, []) == k
  {
    var s := Marker + k;
    assert s[..|Marker|] == Marker && s[|Marker|..] == k + [];
    KeyPassesStrip(k, []);
  }

  /** Stripping "- " removes the marker of a marked line and passes over the
      plain key and the " !" separator after it. */
  lemma StripInnerLine(k: Bytes, j: Bytes)
    requires PlainKey(k)
    ensures Replace(Marker + k + ListSeparator + j, Marker, []) ==
      k + ListSeparator + Replace(j, Marker, [])
  {
    var s := Marker + k + ListSeparator + j;
    assert s[..|Marker|] == Marker && s[|Marker|..] == k + (ListSeparator + j);
    KeyPassesStrip(k, ListSeparator + j);
    forall i: nat | i < |ListSeparator| ensures !OccursAt(ListSeparator + j, Marker, i) {
      assert (ListSeparator + j)[i] != Marker[0];
    }
    ReplaceAppend(ListSeparator, j, Marker, []);
  }

  /** Joining marked lines: the first line, the separator, the rest. */
  lemma JoinMarkedCons(k: Bytes, rest: seq<Bytes>)
    requires |rest| > 0
    ensures Join(Marked([k] + rest), ListSeparator) ==
      Marker + k + ListSeparator + Join(Marked(rest), ListSeparator)
    ensures Join([k] + rest, ListSeparator) == k + ListSeparator + Join(rest, ListSeparator)
  {
    var lines := Marked([k] + rest);
    assert ([k] + rest)[1..] == rest;
    assert lines[1..] == Marked(rest);
  }

  /** The inductive step of `StripMarked`: one more plain key in front. */
  lemma StripMarkedCons(k: Bytes, rest: seq<Bytes>)
    requires PlainKey(k) && |rest| > 0
    requires Replace(Join(Marked(rest), ListSeparator), Marker, []) == Join(rest, ListSeparator)
    ensures Replace(Join(Marked([k] + rest), ListSeparator), Marker, []) == Join([k] + rest, ListSeparator)
  {
    JoinMarkedCons(k, rest);
    StripInnerLine(k, Join(Marked(rest), ListSeparator));
  }

  /** Removing "- " from the " !"-joined marked lines leaves the " !"-joined
      keys. */
  lemma {:induction false} StripMarked(keys: seq<Bytes>)
    requires PlainKeys(keys)
    ensures Replace(Join(Marked(keys), ListSeparator), Marker, []) == Join(keys, ListSeparator)
  {
    if |keys| == 1 {
      assert keys[0] in keys;
      StripLastLine(keys[0]);
    } else if |keys| > 1 {
      assert keys[0] in keys;
      assert forall k :: k in keys[1..] ==> k in keys;
      StripMarked(keys[1..]);
      StripMarkedCons(keys[0], keys[1..]);
      assert keys == [keys[0]] + keys[1..];
    }
  }

  /** For the output of a `keys` query, one "- " line per key, `list` prints
      the keys in ascending byte order, each with a `!` in front, separated by
      single spaces. */
  lemma ListPrintsSortedKeys(keys: seq<Bytes>)
    requires PlainKeys(keys)
    ensures ListText(Marked(keys)) == [Bang] + Join(Sort(keys), ListSeparator)
    ensures Sorted(Sort(keys)) && multiset(Sort(keys)) == multiset(keys)
  {
    SortMarked(keys);
    SortIsOrdered(keys);
    forall k | k in Sort(keys) ensures k in keys {
      assert k in multiset(Sort(keys));
    }
    StripMarked(Sort(keys));
  }

  // ---------------------------------------------------------------------------
  // The handlers that update their argument slice and sort in place

  /** `remove` as written: overwrites `args[0]` with the normalised name in
      the caller's slice. */
  method RemoveInPlace(args: array<Bytes>) returns (r: Outcome)
    modifies args
    ensures r == Remove(old(args[..]))
    ensures args.Length > 0 && |old(args[0])| > 0 ==> args[..] == old(args[..])[0 := Norm(old(args[0]))]
    ensures !(args.Length > 0 && |old(args[0])| > 0) ==> args[..] == old(args[..])
  {
    if args.Length < 1 {
      return Fail(Usage);
    }
    if |args[0]| == 0 {
      return Fail(IndexPanic);
    }
    if args[0][0] != Bang {
      args[0] := [Bang] + args[0];
    }
    r := Done([Chat([RmCommand, args[0]])]);
  }

  /** `edit` as written: overwrites `args[0]` with the normalised name in the
      caller's slice. */
  method EditInPlace(args: array<Bytes>) returns (r: Outcome)
    modifies args
    ensures r == Edit(old(args[..]))
    ensures args.Length > 0 && |old(args[0])| > 0 ==> args[..] == old(args[..])[0 := Norm(old(args[0]))]
    ensures !(args.Length > 0 && |old(args[0])| > 0) ==> args[..] == old(args[..])
  {
    if args.Length < 1 {
      return Fail(Usage);
    }
    if |args[0]| == 0 {
      return Fail(IndexPanic);
    }
    if args[0][0] != Bang {
      args[0] := [Bang] + args[0];
    }
    var msg := Join(args[1..], Space);
    r := Done([Chat([EditCommand, args[0], msg])]);
  }

  /** `list` as written: sorts the lines in place, then reassigns the buffer
      to the joined lines and to the stripped text. */
  method ListInPlace(path: Bytes, yq: Yq, toLines: LineSplitter) returns (r: Outcome)
    ensures r == List(path, yq, toLines)
  {
    if |path| == 0 {
      return Fail(MissingConfig(FileKey));
    }
    var q := yq(KeysQuery, path);
    if q.QueryError? {
      return Fail(QueryFailed(q.reason));
    }
    var buf := q.text;
    var split := toLines(buf);
    var lines := new Bytes[|split|](i requires 0 <= i < |split| => split[i]);
    assert lines[..] == split;
    SortInPlace(lines);
    buf := Join(lines[..], ListSeparator);
    buf := Replace(buf, Marker, []);
    r := Done([Println([Bang] + buf)]);
  }

  // ---------------------------------------------------------------------------
  // Worked examples

  lemma RemoveExample()
    ensures Remove(["foo"]) == Remove(["!foo"]) == Done([Chat(["!rmcommand", "!foo"])])
  {
    RemoveIgnoresBang("foo", []);
    assert [Bang] + "foo" == "!foo";
  }

  lemma EditExample()
    ensures Edit(["foo", "a", "b"]) == Done([Chat(["!editcommand", "!foo", "a b"])])
  {
    assert ["foo", "a", "b"][1..] == ["a", "b"];
    assert ["a", "b"][1..] == ["b"];
    assert Join(["a", "b"], Space) == "a" + " " + "b" == "a b";
    assert [Bang] + "foo" == "!foo";
  }

  lemma AddEmptyBodyExample()
    ensures Add(["name", ""]) == Done([Chat(["!addcommand", "name", ""])])
  {
    assert ["name", ""][1..] == [""];
  }

  lemma ListExample()
    ensures ListText(Marked(["b", "a"])) == "!a !b"
  {
    var keys: seq<Bytes> := ["b", "a"];
    ExampleKeysArePlain(keys);
    ListPrintsSortedKeys(keys);
    ExampleSortsKeys();
    ExampleJoinsKeys();
  }

  lemma ExampleKeysArePlain(keys: seq<Bytes>)
    requires keys == ["b", "a"]
    ensures PlainKeys(keys)
  {
    forall k | k in keys ensures PlainKey(k) {
      assert |k| == 1;
    }
  }

  lemma ExampleSortsKeys()
    ensures Sort(["b", "a"]) == ["a", "b"]
  {
    var b: Bytes, a: Bytes := "b", "a";
    assert !LessEq(b, a);
    assert Sort([a]) == [a];
    assert [b, a][1..] == [a];
    assert Sort([b, a]) == Insert(b, [a]) == [a, b];
  }

  lemma ExampleJoinsKeys()
    ensures [Bang] + Join(["a", "b"], ListSeparator) == "!a !b"
  {
    var b: Bytes, a: Bytes := "b", "a";
    assert [a, b][1..] == [b];
    assert Join([a, b], ListSeparator) == a + ListSeparator + b;
  }
}
