/** The text and the file paths Export produces: one line per record,
    fields separated by single spaces, each line ended by ";\n". The
    readers below are not in the source, which never parses its dumps; they
    show which of the three formats can be read back. */
module Dump {
  import opened Types
  import opened Decimal
  import Ledger

  // ---------------------------------------------------------------------
  // Line formats (the text of one loop iteration, without its "\n")

  function AccountRecord(a: Account): (r: string) {
    IntToString(a.id) + " " + a.phone + " " + IntToString(a.balance) + ";"
  }

  function PaymentRecord(p: Payment): (r: string) {
    p.id + " " + IntToString(p.accountId) + " " + IntToString(p.amount) + " " + p.category + " " + p.status + ";"
  }

  /** As written, amount and category are joined WITHOUT a separator. */
  function FavoriteRecord(f: Favorite): (r: string) {
    f.id + " " + IntToString(f.accountId) + " " + f.name + " " + IntToString(f.amount) + f.category + ";"
  }

  /** The text a `result += record + "\n"` loop builds, in order. */
  function Lines<T>(s: seq<T>, record: T -> string): (r: string) {
    if s == [] then "" else Lines(s[..|s| - 1], record) + record(s[|s| - 1]) + "\n"
  }

  lemma LinesExtend<T>(s: seq<T>, k: nat, record: T -> string)
    requires k < |s|
    ensures Lines(s[..k + 1], record) == Lines(s[..k], record) + record(s[k]) + "\n"
  {
    assert s[..k + 1][..k] == s[..k];
  }

  /** Export's loop bodies append exactly one record and its newline. */
  lemma AccountLineAppends(text: string, a: Account)
    ensures text + IntToString(a.id) + " " + a.phone + " " + IntToString(a.balance) + ";\n"
      == text + AccountRecord(a) + "\n"
  {
  }

  lemma PaymentLineAppends(text: string, p: Payment)
    ensures text + p.id + " " + IntToString(p.accountId) + " " + IntToString(p.amount)
      + " " + p.category + " " + p.status + ";\n"
      == text + PaymentRecord(p) + "\n"
  {
  }

  lemma FavoriteLineAppends(text: string, f: Favorite)
    ensures text + f.id + " " + IntToString(f.accountId) + " " + f.name + " "
      + IntToString(f.amount) + f.category + ";\n"
      == text + FavoriteRecord(f) + "\n"
  {
  }

  function AccountsText(accounts: seq<Account>): (r: string) { Lines(accounts, AccountRecord) }
  function PaymentsText(payments: seq<Payment>): (r: string) { Lines(payments, PaymentRecord) }
  function FavoritesText(favorites: seq<Favorite>): (r: string) { Lines(favorites, FavoriteRecord) }

  lemma {:induction false} LinesAppend<T>(a: seq<T>, b: seq<T>, record: T -> string)
    ensures Lines(a + b, record) == Lines(a, record) + Lines(b, record)
    decreases |b|
  {
    if b == [] {
      assert a + b == a;
    } else {
      var n := |b|;
      assert (a + b)[..|a + b| - 1] == a + b[..n - 1];
      LinesAppend(a, b[..n - 1], record);
    }
  }

  /** One record per line: the first element's line comes first. */
  lemma LinesCons<T>(x: T, s: seq<T>, record: T -> string)
    ensures Lines([x] + s, record) == record(x) + "\n" + Lines(s, record)
  {
    LinesAppend([x], s, record);
    assert [x][..0] == [];
  }

  // ---------------------------------------------------------------------
  // Splitting on a separator character

  function Split(s: string, sep: char): (r: seq<string>)
    ensures |r| >= 1
  {
    if s == [] then [""]
    else
      var rest := Split(s[1..], sep);
      if s[0] == sep then [""] + rest else [[s[0]] + rest[0]] + rest[1..]
  }

  lemma {:induction false} SplitWithout(x: string, sep: char)
    requires sep !in x
    ensures Split(x, sep) == [x]
  {
    if x != [] {
      SplitWithout(x[1..], sep);
      assert [x[0]] + x[1..] == x;
    }
  }

  lemma {:induction false} SplitJoin(x: string, y: string, sep: char)
    requires sep !in x
    ensures Split(x + [sep] + y, sep) == [x] + Split(y, sep)
  {
    if x == [] {
      assert x + [sep] + y == [sep] + y;
      assert ([sep] + y)[1..] == y;
    } else {
      SplitJoin(x[1..], y, sep);
      assert (x + [sep] + y)[1..] == x[1..] + [sep] + y;
      assert [x[0]] + x[1..] == x;
    }
  }

  /** The fields with the separator between them. */
  function Join(fields: seq<string>, sep: char): (r: string)
    requires |fields| >= 1
  {
    if |fields| == 1 then fields[0] else fields[0] + [sep] + Join(fields[1..], sep)
  }

  lemma {:induction false} SplitOfJoin(fields: seq<string>, sep: char)
    requires |fields| >= 1
    requires forall k :: 0 <= k < |fields| ==> sep !in fields[k]
    ensures Split(Join(fields, sep), sep) == fields
    decreases |fields|
  {
    if |fields| == 1 {
      SplitWithout(fields[0], sep);
    } else {
      SplitJoin(fields[0], Join(fields[1..], sep), sep);
      SplitOfJoin(fields[1..], sep);
      assert [fields[0]] + fields[1..] == fields;
    }
  }

  function Records<T>(s: seq<T>, record: T -> string): (r: seq<string>)
    ensures |r| == |s| && forall k :: 0 <= k < |s| ==> r[k] == record(s[k])
  {
    seq(|s|, k requires 0 <= k < |s| => record(s[k]))
  }

  /** Splitting the built text at newlines gives back the records, then the
      empty text after the final newline. */
  lemma {:induction false} SplitLines<T>(s: seq<T>, record: T -> string)
    requires forall k :: 0 <= k < |s| ==> '\n' !in record(s[k])
    ensures Split(Lines(s, record), '\n') == Records(s, record) + [""]
    decreases |s|
  {
    if s != [] {
      var rest := s[1..];
      var head, tail := record(s[0]), Lines(rest, record);
      LinesOfHead(s, record);
      assert Lines(s, record) == head + ['\n'] + tail;
      SplitJoin(head, tail, '\n');
      SplitLines(rest, record);
      RecordsOfHead(s, record);
      assert [head] + (Records(rest, record) + [""]) == ([head] + Records(rest, record)) + [""];
    }
  }

  lemma LinesOfHead<T>(s: seq<T>, record: T -> string)
    requires s != []
    ensures Lines(s, record) == record(s[0]) + ['\n'] + Lines(s[1..], record)
  {
    assert s == [s[0]] + s[1..];
    LinesCons(s[0], s[1..], record);
    assert "\n" == ['\n'];
  }

  lemma RecordsOfHead<T>(s: seq<T>, record: T -> string)
    requires s != []
    ensures Records(s, record) == [record(s[0])] + Records(s[1..], record)
  {
  }

  // ---------------------------------------------------------------------
  // Reading the formats back

  predicate Unspaced(s: string) {
    ' ' !in s && '\n' !in s
  }

  function ParseAccountRecord(rec: string): (r: Option<Account>) {
    if |rec| == 0 || rec[|rec| - 1] != ';' then None
    else
      var f := Split(rec[..|rec| - 1], ' ');
      if |f| != 3 then None
      else match (ParseInt(f[0]), ParseInt(f[2]))
        case (Some(id), Some(balance)) => Some(Account(id, f[1], balance))
        case _ => None
  }

  function ParsePaymentRecord(rec: string): (r: Option<Payment>) {
    if |rec| == 0 || rec[|rec| - 1] != ';' then None
    else
      var f := Split(rec[..|rec| - 1], ' ');
      if |f| != 5 then None
      else match (ParseInt(f[1]), ParseInt(f[2]))
        case (Some(accountId), Some(amount)) => Some(Payment(f[0], accountId, amount, f[3], f[4]))
        case _ => None
  }

  /** A phone without spaces or newlines makes an account line readable. */
  lemma AccountRecordReads(a: Account)
    requires Unspaced(a.phone)
    ensures ParseAccountRecord(AccountRecord(a)) == Some(a)
    ensures '\n' !in AccountRecord(a)
  {
    var id, bal := IntToString(a.id), IntToString(a.balance);
    var body := id + " " + a.phone + " " + bal;
    var rec := AccountRecord(a);
    assert rec == body + ";";
    assert rec[..|rec| - 1] == body;
    var fields := [id, a.phone, bal];
    assert Join(fields[2..], ' ') == bal;
    assert Join(fields[1..], ' ') == a.phone + [' '] + bal;
    assert body == Join(fields, ' ');
    SplitOfJoin(fields, ' ');
    ParseIntString(a.id);
    ParseIntString(a.balance);
  }

  lemma PaymentRecordReads(p: Payment)
    requires Unspaced(p.id) && Unspaced(p.category) && Unspaced(p.status)
    ensures ParsePaymentRecord(PaymentRecord(p)) == Some(p)
    ensures '\n' !in PaymentRecord(p)
  {
    var acc, amt := IntToString(p.accountId), IntToString(p.amount);
    var body := p.id + " " + acc + " " + amt + " " + p.category + " " + p.status;
    var rec := PaymentRecord(p);
    assert rec == body + ";";
    assert rec[..|rec| - 1] == body;
    var fields := [p.id, acc, amt, p.category, p.status];
    JoinFive(p.id, acc, amt, p.category, p.status);
    SplitOfJoin(fields, ' ');
    ParseIntString(p.accountId);
    ParseIntString(p.amount);
  }

  lemma JoinFive(a: string, b: string, c: string, d: string, e: string)
    ensures Join([a, b, c, d, e], ' ') == a + " " + b + " " + c + " " + d + " " + e
  {
    var fields := [a, b, c, d, e];
    assert fields[1..] == [b, c, d, e] && fields[2..] == [c, d, e] && fields[3..] == [d, e] && fields[4..] == [e];
    assert Join([d, e], ' ') == d + [' '] + e;
    assert Join([c, d, e], ' ') == c + [' '] + (d + [' '] + e);
    assert Join([b, c, d, e], ' ') == b + [' '] + (c + [' '] + (d + [' '] + e));
    assert a + " " + b + " " + c + " " + d == a + [' '] + (b + [' '] + (c + [' '] + d));
    assert a + " " + b + " " + c + " " + d + " " + e == (a + [' '] + (b + [' '] + (c + [' '] + d))) + [' '] + e;
  }

  function ParseAll<T>(recs: seq<string>, parse: string -> Option<T>): (r: Option<seq<T>>)
    ensures r.Some? ==> |r.value| == |recs|
  {
    if recs == [] then Some([])
    else match (parse(recs[0]), ParseAll(recs[1..], parse))
      case (Some(x), Some(xs)) => Some([x] + xs)
      case _ => None
  }

  function ParseLines<T>(text: string, parse: string -> Option<T>): (r: Option<seq<T>>) {
    var pieces := Split(text, '\n');
    if pieces[|pieces| - 1] != "" then None else ParseAll(pieces[..|pieces| - 1], parse)
  }

  lemma {:induction false} ParseAllRecords<T>(s: seq<T>, record: T -> string, parse: string -> Option<T>)
    requires forall k :: 0 <= k < |s| ==> parse(record(s[k])) == Some(s[k])
    ensures ParseAll(Records(s, record), parse) == Some(s)
    decreases |s|
  {
    if s != [] {
      assert Records(s, record)[1..] == Records(s[1..], record);
      ParseAllRecords(s[1..], record, parse);
      assert [s[0]] + s[1..] == s;
    }
  }

  lemma ParseLinesOfLines<T>(s: seq<T>, record: T -> string, parse: string -> Option<T>)
    requires forall k :: 0 <= k < |s| ==> parse(record(s[k])) == Some(s[k]) && '\n' !in record(s[k])
    ensures ParseLines(Lines(s, record), parse) == Some(s)
  {
    SplitLines(s, record);
    var pieces := Records(s, record) + [""];
    assert pieces[..|pieces| - 1] == Records(s, record);
    ParseAllRecords(s, record, parse);
  }

  /** An accounts dump reads back as the same accounts, in order, when no
      phone holds a space or a newline. */
  lemma AccountsTextReads(accounts: seq<Account>)
    requires forall k :: 0 <= k < |accounts| ==> Unspaced(accounts[k].phone)
    ensures ParseLines(AccountsText(accounts), ParseAccountRecord) == Some(accounts)
  {
    forall k | 0 <= k < |accounts|
      ensures ParseAccountRecord(AccountRecord(accounts[k])) == Some(accounts[k]) && '\n' !in AccountRecord(accounts[k])
    {
      AccountRecordReads(accounts[k]);
    }
    ParseLinesOfLines(accounts, AccountRecord, ParseAccountRecord);
  }

  lemma PaymentsTextReads(payments: seq<Payment>)
    requires forall k :: 0 <= k < |payments| ==>
      Unspaced(payments[k].id) && Unspaced(payments[k].category) && Unspaced(payments[k].status)
    ensures ParseLines(PaymentsText(payments), ParsePaymentRecord) == Some(payments)
  {
    forall k | 0 <= k < |payments|
      ensures ParsePaymentRecord(PaymentRecord(payments[k])) == Some(payments[k]) && '\n' !in PaymentRecord(payments[k])
    {
      PaymentRecordReads(payments[k]);
    }
    ParseLinesOfLines(payments, PaymentRecord, ParsePaymentRecord);
  }

  /** The favorites format is not readable back: two different favorites
      give the same line, because amount and category run together. */
  lemma FavoriteRecordsCollide()
    ensures var f1 := Favorite("f", 1, "n", 12, "x");
      var f2 := Favorite("f", 1, "n", 1, "2x");
      f1 != f2 && FavoriteRecord(f1) == FavoriteRecord(f2)
  {
    assert IntToString(12) == "12" by {
      assert NatToString(12) == NatToString(1) + [DigitChar(2)];
    }
    assert IntToString(1) == "1";
  }

  // ---------------------------------------------------------------------
  // Export: paths and writes

  datatype Write = Write(path: string, content: string)

  /** The writes Export attempts, in order, and the path of the write that
      failed, if one did (Export returns at the first failure). */
  datatype Run = Run(writes: seq<Write>, failed: Option<string>)

  /** One `if` block of Export: whether the collection is non-empty, the
      suffix added to `dir`, and the text to write. */
  datatype Stage = Stage(present: bool, suffix: string, content: string)

  const AccountsSuffix := "/accounts.dump"
  const PaymentsSuffix := "/payments.dump"
  const FavoritesSuffix := "/favorites.dump"

  /** `dir` is extended in place, so each suffix is added to the path of
      the previous file rather than to the original directory.
      `failing` is the set of paths whose file write fails. */
  function RunStages(dir: string, stages: seq<Stage>, failing: set<string>): (r: Run)
    decreases |stages|
  {
    if stages == [] then Run([], None)
    else if !stages[0].present then RunStages(dir, stages[1..], failing)
    else
      var path := dir + stages[0].suffix;
      var w := Write(path, stages[0].content);
      if path in failing then Run([w], Some(path))
      else
        var rest := RunStages(path, stages[1..], failing);
        Run([w] + rest.writes, rest.failed)
  }

  function Prepend(writes: seq<Write>, r: Run): (run: Run) {
    Run(writes + r.writes, r.failed)
  }

  /** One step of RunStages from stage k on, as Export's k-th `if` block does it. */
  lemma RunStagesAt(dir: string, ss: seq<Stage>, k: nat, failing: set<string>)
    requires k <= |ss|
    ensures k == |ss| ==> RunStages(dir, ss[k..], failing) == Run([], None)
    ensures k < |ss| ==> (RunStages(dir, ss[k..], failing) ==
      if !ss[k].present then RunStages(dir, ss[k + 1..], failing)
      else if dir + ss[k].suffix in failing then
        Run([Write(dir + ss[k].suffix, ss[k].content)], Some(dir + ss[k].suffix))
      else Prepend([Write(dir + ss[k].suffix, ss[k].content)], RunStages(dir + ss[k].suffix, ss[k + 1..], failing)))
  {
    if k < |ss| {
      assert ss[k..][1..] == ss[k + 1..];
    }
  }

  /** How the result of RunStages is built while the stages are taken one
      at a time: `goal` is the writes so far followed by what the remaining
      stages produce from the current path. */
  lemma StageAdvance(goal: Run, writes: seq<Write>, path: string, ss: seq<Stage>, k: nat, failing: set<string>)
    requires k < |ss|
    requires goal == Prepend(writes, RunStages(path, ss[k..], failing))
    ensures !ss[k].present ==> goal == Prepend(writes, RunStages(path, ss[k + 1..], failing))
    ensures ss[k].present && path + ss[k].suffix in failing ==>
      goal == Run(writes + [Write(path + ss[k].suffix, ss[k].content)], Some(path + ss[k].suffix))
    ensures ss[k].present && path + ss[k].suffix !in failing ==>
      goal == Prepend(writes + [Write(path + ss[k].suffix, ss[k].content)], RunStages(path + ss[k].suffix, ss[k + 1..], failing))
  {
    RunStagesAt(path, ss, k, failing);
    var w := Write(path + ss[k].suffix, ss[k].content);
    if ss[k].present && path + ss[k].suffix !in failing {
      var rest := RunStages(path + ss[k].suffix, ss[k + 1..], failing);
      assert writes + ([w] + rest.writes) == (writes + [w]) + rest.writes;
    }
  }

  function ExportStages(st: Ledger.State): (r: seq<Stage>) {
    var (a, p, f) := Ledger.IsServiceEmpty(st);
    [ Stage(a, AccountsSuffix, AccountsText(st.accounts)),
      Stage(p, PaymentsSuffix, PaymentsText(st.payments)),
      Stage(f, FavoritesSuffix, FavoritesText(st.favorites)) ]
  }

  lemma ExportStagesAre(st: Ledger.State)
    ensures var ss := ExportStages(st);
      && |ss| == 3
      && ss[0] == Stage(|st.accounts| > 0, "/accounts.dump", AccountsText(st.accounts))
      && ss[1] == Stage(|st.payments| > 0, "/payments.dump", PaymentsText(st.payments))
      && ss[2] == Stage(|st.favorites| > 0, "/favorites.dump", FavoritesText(st.favorites))
  {
  }

  function Export(st: Ledger.State, dir: string, failing: set<string>): (r: Run) {
    RunStages(dir, ExportStages(st), failing)
  }

  function Present(stages: seq<Stage>): (r: seq<Stage>)
    ensures |r| <= |stages|
  {
    if stages == [] then []
    else if stages[0].present then [stages[0]] + Present(stages[1..])
    else Present(stages[1..])
  }

  function Contents(writes: seq<Write>): (r: seq<string>)
    ensures |r| == |writes|
  {
    if writes == [] then [] else [writes[0].content] + Contents(writes[1..])
  }

  function StageContents(stages: seq<Stage>): (r: seq<string>)
    ensures |r| == |stages| && forall k :: 0 <= k < |stages| ==> r[k] == stages[k].content
  {
    seq(|stages|, k requires 0 <= k < |stages| => stages[k].content)
  }

  /** With every write succeeding, exactly the present stages are written,
      in order, each with its own text. */
  lemma {:induction false} RunStagesWritesPresent(dir: string, stages: seq<Stage>)
    ensures RunStages(dir, stages, {}).failed == None
    ensures Contents(RunStages(dir, stages, {}).writes) == StageContents(Present(stages))
    decreases |stages|
  {
    if stages != [] {
      if stages[0].present {
        RunStagesWritesPresent(dir + stages[0].suffix, stages[1..]);
      } else {
        RunStagesWritesPresent(dir, stages[1..]);
      }
    }
  }

  /** The first write goes to `dir` plus its suffix, and every later write to
      the previous write's path plus its suffix. */
  lemma {:induction false} RunStagesNestsPaths(dir: string, stages: seq<Stage>, failing: set<string>)
    requires forall k :: 0 <= k < |stages| ==> |stages[k].suffix| > 0 && stages[k].suffix[0] == '/'
    ensures var w := RunStages(dir, stages, failing).writes;
      && (|w| > 0 ==> |dir| < |w[0].path| && w[0].path[..|dir| + 1] == dir + "/")
      && (forall k :: 0 < k < |w| ==>
            |w[k - 1].path| < |w[k].path| && w[k].path[..|w[k - 1].path| + 1] == w[k - 1].path + "/")
    decreases |stages|
  {
    if stages != [] {
      var s := stages[0];
      if !s.present {
        RunStagesNestsPaths(dir, stages[1..], failing);
      } else {
        var path := dir + s.suffix;
        assert path[..|dir| + 1] == dir + [s.suffix[0]];
        if path !in failing {
          RunStagesNestsPaths(path, stages[1..], failing);
          var w := RunStages(dir, stages, failing).writes;
          var rest := RunStages(path, stages[1..], failing).writes;
          assert w == [Write(path, s.content)] + rest;
          forall k | 0 < k < |w|
            ensures |w[k - 1].path| < |w[k].path| && w[k].path[..|w[k - 1].path| + 1] == w[k - 1].path + "/"
          {
            assert w[k] == rest[k - 1];
            if k > 1 {
              assert w[k - 1] == rest[k - 2];
            }
          }
        }
      }
    }
  }

  /** Export stops at the first failing write: that write is the last one
      attempted, and no earlier write failed. A run ends without failure
      exactly when no write of the failure-free run fails, and then it made
      all of those writes. */
  lemma RunStagesStopsAtFailure(dir: string, stages: seq<Stage>, failing: set<string>)
    ensures var r := RunStages(dir, stages, failing);
      && (r.failed.Some? ==> |r.writes| > 0 && r.writes[|r.writes| - 1].path == r.failed.value && r.failed.value in failing)
      && (r.failed.Some? ==> forall k :: 0 <= k < |r.writes| - 1 ==> r.writes[k].path !in failing)
      && (r.failed.None? ==> forall k :: 0 <= k < |r.writes| ==> r.writes[k].path !in failing)
      && |r.writes| <= |Present(stages)|
    ensures var r := RunStages(dir, stages, failing);
      var all := RunStages(dir, stages, {}).writes;
      && (r.failed.None? <==> forall k :: 0 <= k < |all| ==> all[k].path !in failing)
      && (r.failed.None? ==> r.writes == all)
  {
    RunStagesStopsEarly(dir, stages, failing);
    RunStagesCompletes(dir, stages, failing);
  }

  lemma {:induction false} RunStagesStopsEarly(dir: string, stages: seq<Stage>, failing: set<string>)
    ensures var r := RunStages(dir, stages, failing);
      && (r.failed.Some? ==> |r.writes| > 0 && r.writes[|r.writes| - 1].path == r.failed.value && r.failed.value in failing)
      && (r.failed.Some? ==> forall k :: 0 <= k < |r.writes| - 1 ==> r.writes[k].path !in failing)
      && (r.failed.None? ==> forall k :: 0 <= k < |r.writes| ==> r.writes[k].path !in failing)
      && |r.writes| <= |Present(stages)|
    decreases |stages|
  {
    if stages != [] {
      var s := stages[0];
      if !s.present {
        RunStagesStopsEarly(dir, stages[1..], failing);
      } else {
        var path := dir + s.suffix;
        if path !in failing {
          RunStagesStopsEarly(path, stages[1..], failing);
          var r := RunStages(dir, stages, failing);
          var rest := RunStages(path, stages[1..], failing);
          assert forall k :: 1 <= k < |r.writes| ==> r.writes[k] == rest.writes[k - 1];
        }
      }
    }
  }

  /** A run ends without failure exactly when no write of the failure-free
      run fails, and then it made all of those writes. */
  lemma {:induction false} RunStagesCompletes(dir: string, stages: seq<Stage>, failing: set<string>)
    ensures var r := RunStages(dir, stages, failing);
      var all := RunStages(dir, stages, {}).writes;
      && (r.failed.None? <==> forall k :: 0 <= k < |all| ==> all[k].path !in failing)
      && (r.failed.None? ==> r.writes == all)
    decreases |stages|
  {
    if stages != [] {
      var s := stages[0];
      if !s.present {
        RunStagesCompletes(dir, stages[1..], failing);
        assert RunStages(dir, stages, {}) == RunStages(dir, stages[1..], {});
        assert RunStages(dir, stages, failing) == RunStages(dir, stages[1..], failing);
      } else {
        var path := dir + s.suffix;
        var restAll := RunStages(path, stages[1..], {}).writes;
        var all := RunStages(dir, stages, {}).writes;
        assert all == [Write(path, s.content)] + restAll;
        assert all[0].path == path;
        if path !in failing {
          RunStagesCompletes(path, stages[1..], failing);
          assert (forall k :: 0 <= k < |all| ==> all[k].path !in failing)
             <==> (forall k :: 0 <= k < |restAll| ==> restAll[k].path !in failing) by {
            assert forall k :: 1 <= k < |all| ==> all[k] == restAll[k - 1];
            assert forall k :: 0 <= k < |restAll| ==> restAll[k] == all[k + 1];
          }
        }
      }
    }
  }

  /** A failing write only cuts the run short: the writes attempted are the
      first writes of the run in which every write succeeds. */
  lemma {:induction false} RunStagesPrefix(dir: string, stages: seq<Stage>, failing: set<string>)
    ensures var w := RunStages(dir, stages, failing).writes;
      var all := RunStages(dir, stages, {}).writes;
      |w| <= |all| && w == all[..|w|]
    decreases |stages|
  {
    if stages != [] {
      if !stages[0].present {
        RunStagesPrefix(dir, stages[1..], failing);
      } else {
        var path := dir + stages[0].suffix;
        RunStagesPrefix(path, stages[1..], failing);
        var first := Write(path, stages[0].content);
        var restAll := RunStages(path, stages[1..], {}).writes;
        assert RunStages(dir, stages, {}).writes == [first] + restAll;
        if path !in failing {
          var restW := RunStages(path, stages[1..], failing).writes;
          assert ([first] + restAll)[..1 + |restW|] == [first] + restAll[..|restW|];
        }
      }
    }
  }

  /** The suffixes of the stages, joined in order. */
  function Suffixes(stages: seq<Stage>): (r: string) {
    if stages == [] then "" else stages[0].suffix + Suffixes(stages[1..])
  }

  /** Write k goes to `dir` followed by the suffixes of the first k + 1
      non-empty stages. */
  ghost predicate PathsFollow(dir: string, stages: seq<Stage>, w: seq<Write>) {
    && |w| <= |Present(stages)|
    && forall k :: 0 <= k < |w| ==> w[k].path == dir + Suffixes(Present(stages)[..k + 1])
  }

  /** Every run, whatever fails, writes to the paths PathsFollow gives. */
  lemma {:induction false} RunStagesPaths(dir: string, stages: seq<Stage>, failing: set<string>)
    ensures PathsFollow(dir, stages, RunStages(dir, stages, failing).writes)
    decreases |stages|
  {
    if stages != [] {
      var s := stages[0];
      var w := RunStages(dir, stages, failing).writes;
      var tail := Present(stages[1..]);
      if !s.present {
        RunStagesPaths(dir, stages[1..], failing);
        assert w == RunStages(dir, stages[1..], failing).writes;
        assert Present(stages) == tail;
      } else {
        var path := dir + s.suffix;
        var ps := Present(stages);
        assert ps == [s] + tail;
        assert Suffixes(ps[..1]) == s.suffix by {
          assert ps[..1] == [s];
          assert Suffixes([s]) == s.suffix + Suffixes([]);
        }
        if path !in failing {
          RunStagesPaths(path, stages[1..], failing);
          var rest := RunStages(path, stages[1..], failing).writes;
          assert PathsFollow(path, stages[1..], rest);
          assert w == [Write(path, s.content)] + rest;
          forall k | 0 <= k < |w|
            ensures w[k].path == dir + Suffixes(ps[..k + 1])
          {
            if k > 0 {
              assert w[k] == rest[k - 1];
              assert rest[k - 1].path == path + Suffixes(tail[..k - 1 + 1]);
              assert ps[..k + 1] == [s] + tail[..k];
              assert Suffixes(ps[..k + 1]) == s.suffix + Suffixes(tail[..k]) by {
                assert ([s] + tail[..k])[1..] == tail[..k];
              }
              assert dir + (s.suffix + Suffixes(tail[..k])) == path + Suffixes(tail[..k]);
            }
          }
        }
      }
    }
  }

  function Paths(writes: seq<Write>): (r: seq<string>)
    ensures |r| == |writes| && forall k :: 0 <= k < |writes| ==> r[k] == writes[k].path
  {
    seq(|writes|, k requires 0 <= k < |writes| => writes[k].path)
  }

  /** One stage of a failure-free run: a non-empty stage adds one path and
      moves the current path on. */
  lemma PathsStep(dir: string, ss: seq<Stage>)
    requires ss != []
    ensures var d := if ss[0].present then dir + ss[0].suffix else dir;
      Paths(RunStages(dir, ss, {}).writes) ==
        (if ss[0].present then [d] else []) + Paths(RunStages(d, ss[1..], {}).writes)
  {
    if ss[0].present {
      var d := dir + ss[0].suffix;
      var rest := RunStages(d, ss[1..], {}).writes;
      assert RunStages(dir, ss, {}).writes == [Write(d, ss[0].content)] + rest;
    } else {
      assert [] + Paths(RunStages(dir, ss[1..], {}).writes) == Paths(RunStages(dir, ss[1..], {}).writes);
    }
  }

  lemma RunThreePaths(dir: string, ss: seq<Stage>)
    requires |ss| == 3
    ensures var d1 := if ss[0].present then dir + ss[0].suffix else dir;
      var d2 := if ss[1].present then d1 + ss[1].suffix else d1;
      Paths(RunStages(dir, ss, {}).writes) ==
        (if ss[0].present then [d1] else [])
      + (if ss[1].present then [d2] else [])
      + (if ss[2].present then [d2 + ss[2].suffix] else [])
  {
    ThreeStages(ss);
    var d1 := if ss[0].present then dir + ss[0].suffix else dir;
    var d2 := if ss[1].present then d1 + ss[1].suffix else d1;
    var d3 := if ss[2].present then d2 + ss[2].suffix else d2;
    PathsStep(dir, ss);
    PathsStep(d1, ss[1..]);
    PathsStep(d2, ss[1..][1..]);
    assert Paths(RunStages(d3, ss[1..][1..][1..], {}).writes) == [];
  }

  /** The path of every write, for any mix of non-empty lists: each suffix
      is added to the path the previous non-empty list was written to, not
      to `dir`. A failing write only cuts this list short. */
  lemma ExportPaths(st: Ledger.State, dir: string, failing: set<string>)
    ensures var a, p, f := |st.accounts| > 0, |st.payments| > 0, |st.favorites| > 0;
      var d1 := if a then dir + AccountsSuffix else dir;
      var d2 := if p then d1 + PaymentsSuffix else d1;
      var all := Paths(Export(st, dir, {}).writes);
      var w := Export(st, dir, failing).writes;
      && all == (if a then [d1] else []) + (if p then [d2] else []) + (if f then [d2 + FavoritesSuffix] else [])
      && |w| <= |all| && Paths(w) == all[..|w|]
  {
    var ss := ExportStages(st);
    ExportStagesAre(st);
    RunThreePaths(dir, ss);
    RunStagesPrefix(dir, ss, failing);
  }

  /** Whatever fails, Export attempts the first writes (paths and texts) of
      the run in which every write succeeds. */
  lemma ExportPrefix(st: Ledger.State, dir: string, failing: set<string>)
    ensures var w := Export(st, dir, failing).writes;
      var all := Export(st, dir, {}).writes;
      |w| <= |all| && w == all[..|w|]
  {
    RunStagesPrefix(dir, ExportStages(st), failing);
  }

  /** With accounts and payments but no favorites, the payments dump goes
      beneath the accounts dump. */
  lemma ExportPathsTwo(st: Ledger.State, dir: string)
    requires |st.accounts| > 0 && |st.payments| > 0 && |st.favorites| == 0
    ensures Paths(Export(st, dir, {}).writes) == [dir + "/accounts.dump", dir + "/accounts.dump/payments.dump"]
  {
    ExportPaths(st, dir, {});
    SuffixesJoin(dir);
  }

  /** Export writes accounts, payments and favorites, in that order, each
      exactly when its collection is non-empty (the flags of
      IsServiceEmpty), when no write fails. */
  lemma ExportWritesNonEmpty(st: Ledger.State, dir: string)
    ensures var r := Export(st, dir, {});
      && r.failed == None
      && Contents(r.writes) ==
           (if |st.accounts| > 0 then [AccountsText(st.accounts)] else [])
         + (if |st.payments| > 0 then [PaymentsText(st.payments)] else [])
         + (if |st.favorites| > 0 then [FavoritesText(st.favorites)] else [])
  {
    var ss := ExportStages(st);
    PresentThree(ss);
    RunStagesWritesPresent(dir, ss);
  }

  lemma ThreeStages(ss: seq<Stage>)
    requires |ss| == 3
    ensures ss[1..] == [ss[1], ss[2]] && ss[1..][1..] == [ss[2]] && ss[1..][1..][1..] == []
  {
  }

  function Written(s: Stage): (r: seq<string>) {
    if s.present then [s.content] else []
  }

  lemma PresentThree(ss: seq<Stage>)
    requires |ss| == 3
    ensures StageContents(Present(ss)) == Written(ss[0]) + Written(ss[1]) + Written(ss[2])
  {
    ThreeStages(ss);
    var t1, t2 := ss[1..], ss[1..][1..];
    assert StageContents(Present(t2[1..])) == [];
    assert StageContents(Present(t2)) == Written(ss[2]);
    assert StageContents(Present(t1)) == Written(ss[1]) + Written(ss[2]);
  }

  /** A later dump file is placed beneath the path of the earlier FILE:
      with all three collections non-empty the paths are
      dir/accounts.dump, dir/accounts.dump/payments.dump and
      dir/accounts.dump/payments.dump/favorites.dump. */
  lemma ExportPathsAccumulate(st: Ledger.State, dir: string)
    requires |st.accounts| > 0 && |st.payments| > 0 && |st.favorites| > 0
    ensures var w := Export(st, dir, {}).writes;
      && |w| == 3
      && w[0].path == dir + "/accounts.dump"
      && w[1].path == dir + "/accounts.dump/payments.dump"
      && w[2].path == dir + "/accounts.dump/payments.dump/favorites.dump"
  {
    ExportPaths(st, dir, {});
    SuffixesJoin(dir);
  }

  lemma SuffixesJoin(dir: string)
    ensures dir + AccountsSuffix + PaymentsSuffix == dir + "/accounts.dump/payments.dump"
    ensures dir + AccountsSuffix + PaymentsSuffix + FavoritesSuffix == dir + "/accounts.dump/payments.dump/favorites.dump"
  {
    assert AccountsSuffix + PaymentsSuffix == "/accounts.dump/payments.dump";
    assert "/accounts.dump/payments.dump" + FavoritesSuffix == "/accounts.dump/payments.dump/favorites.dump";
  }

  /** Every write after the first lands under the previous write's path. */
  lemma ExportNestsPaths(st: Ledger.State, dir: string, failing: set<string>)
    ensures var w := Export(st, dir, failing).writes;
      forall k :: 0 < k < |w| ==>
        |w[k - 1].path| < |w[k].path| && w[k].path[..|w[k - 1].path| + 1] == w[k - 1].path + "/"
  {
    RunStagesNestsPaths(dir, ExportStages(st), failing);
  }

  lemma ExportStopsAtFailure(st: Ledger.State, dir: string, failing: set<string>)
    ensures var r := Export(st, dir, failing);
      && (r.failed.Some? ==> |r.writes| > 0 && r.writes[|r.writes| - 1].path == r.failed.value && r.failed.value in failing)
      && (r.failed.Some? ==> forall k :: 0 <= k < |r.writes| - 1 ==> r.writes[k].path !in failing)
      && (r.failed.None? ==> forall k :: 0 <= k < |r.writes| ==> r.writes[k].path !in failing)
      && |r.writes| <= 3
    ensures var r := Export(st, dir, failing);
      var all := Export(st, dir, {}).writes;
      && (r.failed.None? <==> forall k :: 0 <= k < |all| ==> all[k].path !in failing)
      && (r.failed.None? ==> r.writes == all)
  {
    RunStagesStopsAtFailure(dir, ExportStages(st), failing);
  }

  lemma ExportEmpty(dir: string, failing: set<string>)
    ensures Export(Ledger.Empty, dir, failing) == Run([], None)
  {
    var ss := ExportStages(Ledger.Empty);
    ThreeStages(ss);
    assert RunStages(dir, ss[1..][1..][1..], failing) == Run([], None);
    assert RunStages(dir, ss[1..][1..], failing) == Run([], None);
    assert RunStages(dir, ss[1..], failing) == Run([], None);
  }
}
