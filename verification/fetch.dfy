/** The whole of `download`: extract the archive tokens from the index page,
    derive each local name (rewriting the month in numeric mode), and decide
    per archive whether to write it, in page order. The `Last-Modified` time
    of each remote archive and the modification time of each local file are
    given as an environment; a write is recorded as the local name being
    appended to the list of written files. */
module Fetch {
  import opened Wrappers
  import opened Text
  import opened MonthNames
  import opened MonthNameLaws
  import opened ArchiveIndex
  import opened ArchiveSync

  /** What the run reads from the outside world: the parsed `Last-Modified`
      time of a remote archive, by archive name (`None` when the header is
      missing or cannot be parsed), and the modification time of a local
      file, by local name (`None` when the file does not exist). */
  datatype Env = Env(lastModified: string -> Option<Time>, mtime: string -> Option<Time>)

  /** Why a run aborts: an archive name the month rewrite rejects, or a
      remote archive without a usable `Last-Modified` header. */
  datatype Fault = BadName(error: RenameError) | NoLastModified(gzipName: string)

  /** How a run ends: every archive was handled, the loop returned at an
      archive that was not newer, or an exception aborted it. */
  datatype Halt = Exhausted | Unmodified(name: string) | Aborted(fault: Fault)

  /** The local names written, in order, and how the run ended. Files written
      before an abort stay written. */
  datatype Outcome = Outcome(written: seq<string>, halt: Halt)

  /** The local file name of a token: the stripped name with `.txt.gz`
      replaced by `.txt`, then, in numeric mode, the month rewritten. */
  function TxtName(token: string, numeric: bool): Result<string, RenameError> {
    if numeric then Rewrite(LocalName(token)) else Success(LocalName(token))
  }

  /** `TxtName` for the mode the run is in. */
  function Naming(numeric: bool): string -> Result<string, RenameError> {
    t => TxtName(t, numeric)
  }

  /** The entry the decision compares for an archive with local name `name`
      and remote time `remote`. */
  function EntryOf(name: string, remote: Time, env: Env): Entry {
    Entry(name, remote, env.mtime(name))
  }

  /** What the loop body does with one token: write the archive under its
      local name and go on, return because the archive is unmodified, or
      abort with an exception. */
  datatype Verdict = Write(name: string) | Unchanged(name: string) | Fail(fault: Fault)

  /** The body of the loop for one token, `naming` giving its local name:
      derive the local name (which may fail); without early stop, write it;
      with early stop, read the remote time (which may be missing) and write
      the archive only if it is strictly newer than the local file,
      returning otherwise. */
  function Decide(token: string, naming: string -> Result<string, RenameError>,
                  stopAtFirstUnmodified: bool, env: Env): (v: Verdict)
    ensures v.Write? ==> naming(token) == Success(v.name)
    ensures v.Write? && stopAtFirstUnmodified ==>
              env.lastModified(Strip(token)).Some? &&
              Newer(EntryOf(v.name, env.lastModified(Strip(token)).value, env))
    ensures naming(token).Success? && !stopAtFirstUnmodified ==> v.Write?
    ensures v.Unchanged? ==>
              && stopAtFirstUnmodified
              && naming(token) == Success(v.name)
              && env.lastModified(Strip(token)).Some?
              && !Newer(EntryOf(v.name, env.lastModified(Strip(token)).value, env))
    ensures v.Fail? && v.fault.BadName? ==> naming(token) == Failure(v.fault.error)
    ensures v.Fail? && v.fault.NoLastModified? ==>
              && stopAtFirstUnmodified
              && naming(token).Success?
              && v.fault.gzipName == Strip(token)
              && env.lastModified(Strip(token)).None?
  {
    var gzipName := Strip(token);
    match naming(token)
    case Failure(err) => Fail(BadName(err))
    case Success(txtName) =>
      if !stopAtFirstUnmodified then Write(txtName)
      else
        match env.lastModified(gzipName)
        case None => Fail(NoLastModified(gzipName))
        case Some(remote) =>
          if Newer(EntryOf(txtName, remote, env)) then Write(txtName)
          else Unchanged(txtName)
  }

  /** How a verdict that ends the loop ends the run. */
  function HaltOf(v: Verdict): Halt
    requires !v.Write?
  {
    match v
    case Unchanged(name) => Unmodified(name)
    case Fail(f) => Aborted(f)
  }

  /** Carrying out the verdicts in order: the run handles verdicts while
      they say to write and ends with the first verdict that does not, or
      handles every verdict. Nothing past that verdict is reached. */
  function Run(vs: seq<Verdict>): (o: Outcome)
    ensures |o.written| <= |vs|
    ensures o.halt.Exhausted? <==> |o.written| == |vs|
    ensures !o.halt.Exhausted? ==> !vs[|o.written|].Write? && o.halt == HaltOf(vs[|o.written|])
    decreases |vs|
  {
    if vs == [] then Outcome([], Exhausted)
    else if vs[0].Write? then
      var rest := Run(vs[1..]);
      Outcome([vs[0].name] + rest.written, rest.halt)
    else Outcome([], HaltOf(vs[0]))
  }

  /** The names written are those of the verdicts before the one the run
      ends at, each of which says to write that name. */
  lemma {:induction false} RunWritesPrefix(vs: seq<Verdict>)
    ensures forall j :: 0 <= j < |Run(vs).written| ==> vs[j] == Write(Run(vs).written[j])
    decreases |vs|
  {
    if vs != [] && vs[0].Write? {
      RunWritesPrefix(vs[1..]);
      var w := Run(vs).written;
      assert forall j :: 1 <= j < |w| ==> w[j] == Run(vs[1..]).written[j - 1];
    }
  }

  /** Running over `vs + ws` is running over `vs` and, only if that handled
      every verdict, carrying on over `ws`. */
  lemma {:induction false} RunAppend(vs: seq<Verdict>, ws: seq<Verdict>)
    ensures !Run(vs).halt.Exhausted? ==> Run(vs + ws) == Run(vs)
    ensures Run(vs).halt.Exhausted? ==>
              Run(vs + ws) == Outcome(Run(vs).written + Run(ws).written, Run(ws).halt)
    decreases |vs|
  {
    if vs == [] {
      assert vs + ws == ws;
    } else {
      assert (vs + ws)[0] == vs[0];
      assert (vs + ws)[1..] == vs[1..] + ws;
      RunAppend(vs[1..], ws);
      if vs[0].Write? && Run(vs[1..]).halt.Exhausted? {
        var n := vs[0].name;
        assert [n] + (Run(vs[1..]).written + Run(ws).written)
            == ([n] + Run(vs[1..]).written) + Run(ws).written;
      }
    }
  }

  /** The verdicts of the loop body on each token, in order. */
  function Verdicts(tokens: seq<string>, naming: string -> Result<string, RenameError>,
                    stopAtFirstUnmodified: bool, env: Env): seq<Verdict>
  {
    seq(|tokens|, j requires 0 <= j < |tokens| => Decide(tokens[j], naming, stopAtFirstUnmodified, env))
  }

  /** The `for` loop of `download` over the extracted tokens. */
  function Loop(tokens: seq<string>, naming: string -> Result<string, RenameError>,
                stopAtFirstUnmodified: bool, env: Env): Outcome
  {
    Run(Verdicts(tokens, naming, stopAtFirstUnmodified, env))
  }

  /** `download(archive_url, local_directory, numeric, stop_at_first_unmodified)`
      on the index page `page`: the loop over the page's tokens in order. */
  function Download(page: string, numeric: bool, stopAtFirstUnmodified: bool, env: Env): (o: Outcome)
    ensures |o.written| <= |FindAll(page)|
    ensures o.halt.Exhausted? <==> |o.written| == |FindAll(page)|
  {
    Loop(FindAll(page), Naming(numeric), stopAtFirstUnmodified, env)
  }

  /** What a run reports is accounted for by the page's tokens: each
      written name is the local name of the token at its position and, in
      early-stop mode, an archive strictly newer than its local file; a run
      that ends early ends at the next token, for a reason the flags allow:
      a rejected name only in numeric mode, an archive that is not newer or
      one without a `Last-Modified` time only in early-stop mode. */
  lemma {:induction false} DownloadAccounts(page: string, numeric: bool, stopAtFirstUnmodified: bool, env: Env)
    ensures var o := Download(page, numeric, stopAtFirstUnmodified, env);
            var tokens := FindAll(page);
            && (forall j :: 0 <= j < |o.written| ==> TxtName(tokens[j], numeric) == Success(o.written[j]))
            && (stopAtFirstUnmodified ==>
                  forall j :: 0 <= j < |o.written| ==>
                    && env.lastModified(Strip(tokens[j])).Some?
                    && Newer(EntryOf(o.written[j], env.lastModified(Strip(tokens[j])).value, env)))
            && (o.halt.Aborted? && o.halt.fault.BadName? ==>
                  numeric && TxtName(tokens[|o.written|], numeric) == Failure(o.halt.fault.error))
            && (o.halt.Aborted? && o.halt.fault.NoLastModified? ==>
                  && stopAtFirstUnmodified
                  && TxtName(tokens[|o.written|], numeric).Success?
                  && o.halt.fault.gzipName == Strip(tokens[|o.written|])
                  && env.lastModified(Strip(tokens[|o.written|])).None?)
            && (o.halt.Unmodified? ==>
                  && stopAtFirstUnmodified
                  && TxtName(tokens[|o.written|], numeric) == Success(o.halt.name)
                  && env.lastModified(Strip(tokens[|o.written|])).Some?
                  && !Newer(EntryOf(o.halt.name, env.lastModified(Strip(tokens[|o.written|])).value, env)))
  {
    var tokens := FindAll(page);
    var naming := Naming(numeric);
    var vs := Verdicts(tokens, naming, stopAtFirstUnmodified, env);
    var o := Run(vs);
    RunWritesPrefix(vs);
    forall j | 0 <= j < |o.written|
      ensures TxtName(tokens[j], numeric) == Success(o.written[j])
      ensures stopAtFirstUnmodified ==>
                && env.lastModified(Strip(tokens[j])).Some?
                && Newer(EntryOf(o.written[j], env.lastModified(Strip(tokens[j])).value, env))
    {
      assert vs[j] == Decide(tokens[j], naming, stopAtFirstUnmodified, env);
    }
    if !o.halt.Exhausted? {
      var v := vs[|o.written|];
      assert v == Decide(tokens[|o.written|], naming, stopAtFirstUnmodified, env);
    }
  }

  /** A token past the archive at which early stop returns is never looked
      at: whatever follows, even a name the month rewrite rejects or an
      archive without a `Last-Modified` header, the run is the same. */
  lemma EarlyStopIgnoresRest(tokens: seq<string>, more: seq<string>,
                             naming: string -> Result<string, RenameError>, env: Env)
    requires Loop(tokens, naming, true, env).halt.Unmodified?
    ensures Loop(tokens + more, naming, true, env) == Loop(tokens, naming, true, env)
  {
    var vs := Verdicts(tokens, naming, true, env);
    var ws := Verdicts(more, naming, true, env);
    assert Verdicts(tokens + more, naming, true, env) == vs + ws;
    RunAppend(vs, ws);
  }

  /** Every token of `tokens` gets a local name. */
  ghost predicate AllNamed(tokens: seq<string>, naming: string -> Result<string, RenameError>) {
    forall j :: 0 <= j < |tokens| ==> naming(tokens[j]).Success?
  }

  /** Every token of `tokens` has a `Last-Modified` time. */
  ghost predicate AllDated(tokens: seq<string>, env: Env) {
    forall j :: 0 <= j < |tokens| ==> env.lastModified(Strip(tokens[j])).Some?
  }

  /** The entries the decision loop compares for `tokens`. */
  function Entries(tokens: seq<string>, naming: string -> Result<string, RenameError>, env: Env): seq<Entry>
    requires AllNamed(tokens, naming)
  {
    seq(|tokens|, j requires 0 <= j < |tokens| =>
      EntryOf(naming(tokens[j]).value, env.lastModified(Strip(tokens[j])).GetOr(DatetimeMin), env))
  }

  /** When no name is rejected and (in early-stop mode) every archive has a
      `Last-Modified` time, the run writes exactly what the decision loop on
      the entries writes, and stops where it stops. */
  lemma {:induction false} LoopAgreesWithSync(tokens: seq<string>, naming: string -> Result<string, RenameError>,
                                              stop: bool, env: Env)
    requires AllNamed(tokens, naming)
    requires stop ==> AllDated(tokens, env)
    ensures var o := Loop(tokens, naming, stop, env);
            var es := Entries(tokens, naming, env);
            var pass := Sync(es, stop);
            && o.written == pass.written
            && o.halt == if pass.stopped then Unmodified(es[|pass.written|].name) else Exhausted
    decreases |tokens|
  {
    var es := Entries(tokens, naming, env);
    var vs := Verdicts(tokens, naming, stop, env);
    if tokens != [] {
      assert naming(tokens[0]).Success?;
      assert stop ==> env.lastModified(Strip(tokens[0])).Some?;
      assert forall j :: 0 <= j < |tokens| - 1 ==> tokens[1..][j] == tokens[j + 1];
      assert AllNamed(tokens[1..], naming);
      assert stop ==> AllDated(tokens[1..], env);
      LoopAgreesWithSync(tokens[1..], naming, stop, env);
      assert es[1..] == Entries(tokens[1..], naming, env);
      assert vs[1..] == Verdicts(tokens[1..], naming, stop, env);
    }
  }

  /** Without early stop the times are never consulted: any environment
      gives the same run. */
  lemma LoopAllIgnoresTimes(tokens: seq<string>, naming: string -> Result<string, RenameError>,
                                               env: Env, env': Env)
    ensures Loop(tokens, naming, false, env) == Loop(tokens, naming, false, env')
  {
    assert Verdicts(tokens, naming, false, env) == Verdicts(tokens, naming, false, env');
  }

  /** A run whose every verdict says to write writes every name, in order. */
  lemma {:induction false} RunAllWrites(vs: seq<Verdict>)
    requires forall j :: 0 <= j < |vs| ==> vs[j].Write?
    ensures Run(vs) == Outcome(seq(|vs|, j requires 0 <= j < |vs| => vs[j].name), Exhausted)
    decreases |vs|
  {
    if vs != [] {
      RunAllWrites(vs[1..]);
      assert seq(|vs|, j requires 0 <= j < |vs| => vs[j].name)
          == [vs[0].name] + seq(|vs| - 1, j requires 0 <= j < |vs| - 1 => vs[1..][j].name);
    }
  }

  /** Without early stop and without numeric mode the verdict on every
      token is to write it under its local name. */
  lemma PlainVerdictsWrite(tokens: seq<string>, env: Env)
    ensures forall j :: 0 <= j < |tokens| ==>
              Verdicts(tokens, Naming(false), false, env)[j] == Write(LocalName(tokens[j]))
  {
  }

  /** Without early stop and without numeric mode every extracted archive
      is written, in page order, under its local name, whatever the times. */
  lemma {:induction false} DownloadAllWritesEverything(page: string, env: Env)
    ensures var tokens := FindAll(page);
            Download(page, false, false, env) ==
              Outcome(seq(|tokens|, j requires 0 <= j < |tokens| => LocalName(tokens[j])), Exhausted)
  {
    var tokens := FindAll(page);
    var vs := Verdicts(tokens, Naming(false), false, env);
    PlainVerdictsWrite(tokens, env);
    RunAllWrites(vs);
    assert seq(|vs|, j requires 0 <= j < |vs| => vs[j].name)
        == seq(|tokens|, j requires 0 <= j < |tokens| => LocalName(tokens[j]));
  }

  /** The quoted name `a.txt.gz`, with no `.` in `a`, has local name
      `a.txt`. */
  lemma LocalNameOfQuoted(a: string)
    requires forall p :: 0 <= p < |a| ==> a[p] != '.'
    ensures LocalName("\"" + a + GzipSuffix + "\"") == a + ".txt"
  {
    var token := "\"" + a + GzipSuffix + "\"";
    assert Strip(token) == a + GzipSuffix;
    ReplaceSuffix(a, GzipSuffix, ".txt");
  }

  /** The token of year `y` and month name `m` loses only its quotes and
      its `.gz`. */
  lemma LocalNameOfMonthToken(y: string, m: string)
    requires NoSep(y) && NoSep(m)
    ensures LocalName("\"" + y + "-" + m + GzipSuffix + "\"") == y + ['-'] + m + ['.'] + "txt"
  {
    var a := y + "-" + m;
    forall p | 0 <= p < |a|
      ensures a[p] != '.'
    {
      if p < |y| {
        assert a[p] == y[p];
      } else if p > |y| {
        assert a[p] == m[p - |y| - 1];
      }
    }
    LocalNameOfQuoted(a);
    assert "\"" + y + "-" + m + GzipSuffix + "\"" == "\"" + a + GzipSuffix + "\"";
  }

  /** From page token to numeric local name: the token `"Y-Month.txt.gz"`
      of a separator-free year `Y` and the `k`-th month is written, in
      numeric mode, as `Y-kk.txt`. */
  lemma NumericNameOfToken(y: string, k: nat)
    requires NoSep(y) && 1 <= k <= 12
    ensures TxtName("\"" + y + "-" + Months[k - 1] + GzipSuffix + "\"", true)
            == Success(y + "-" + TwoDigits(k) + ".txt")
  {
    var d := y + "-" + TwoDigits(k);
    assert d + "." + "txt" == d + ".txt";
    var m := Months[k - 1];
    MonthsNoSep(k - 1);
    LocalNameOfMonthToken(y, m);
    RewriteShape(y, '-', m, '.', "txt", k);
  }
}
