/** The page contribution collector, get_git_info: walk the page's commits
    (most recent first), clean each author's email, resolve the author
    through the memo and keep each memo key once; then do the same for the
    comma-separated `contributors` of the page's metadata, as user names
    without email. The functions here state that walk step by step; the
    class method in module Plugin runs it with loops and is proved equal. */
module Collector {
  import opened Identity
  import AuthorMemo
  import EmailCleanup

  /** A commit as the history gives it: author name, author email and the
      authored time in seconds since the epoch. */
  datatype Commit = Commit(name: string, email: string, authoredDate: int)

  /** What the collection consults besides the memo: the connection (None
      without a token), the HTTP oracle, and time.strftime("%Y-%m-%d",
      time.gmtime(_)), left uninterpreted. */
  datatype Env = Env(conn: Option<Conn>, server: Request -> Response, formatDate: int -> string)

  /** The locals of get_git_info between two iterations, with the memo, the
      queries looked up so far and the exception that ended the walk, if any. */
  datatype Acc = Acc(seen: seq<string>, unique: seq<Record>, lastDate: string,
                     authors: Authors, lookups: seq<Query>, error: Option<Error>)

  function Start(authors: Authors): Acc
  {
    Acc([], [], "", authors, [], None)
  }

  /** What the loop bodies do with one answer of the memo. `info` is appended
      where the source appends `self.authors[author_id]`; NeverOverwrites
      shows the two are the same record. */
  function Absorb(acc: Acc, o: AuthorMemo.Outcome): Acc
  {
    match o
    case Found(k, r) =>
      if k in acc.seen then acc else acc.(seen := acc.seen + [k], unique := acc.unique + [r])
    case NotFound => acc
    case NoArgs => acc.(error := Some(NoneUnpacking))  // `author_id, info = None`
    case Failed(e) => acc.(error := Some(e))
  }

  /** Resolve one author and absorb the answer; nothing happens once an
      exception has ended the walk. */
  function Visit(env: Env, acc: Acc, username: Option<string>, email: Option<string>): Acc
  {
    if acc.error.Some? then acc
    else
      var m := AuthorMemo.Resolve(acc.authors, env.conn, env.server, username, email);
      Absorb(acc.(authors := m.authors, lookups := acc.lookups + m.lookups), m.outcome)
  }

  /** One iteration of the commit loop (lines 157-169): the date of the first
      commit is taken before the author is resolved. */
  function CommitStep(env: Env, acc: Acc, c: Commit): Acc
  {
    if acc.error.Some? then acc
    else
      var date := if acc.lastDate == "" then env.formatDate(c.authoredDate) else acc.lastDate;
      Visit(env, acc.(lastDate := date), Some(c.name), Some(EmailCleanup.CleanEmail(c.email)))
  }

  /** One iteration of the metadata loop (lines 175-183). */
  function NameStep(env: Env, acc: Acc, name: string): Acc
  {
    Visit(env, acc, Some(name), None)
  }

  function Commits(env: Env, acc: Acc, cs: seq<Commit>): Acc
    decreases |cs|
  {
    if cs == [] then acc else CommitStep(env, Commits(env, acc, cs[..|cs| - 1]), cs[|cs| - 1])
  }

  function Names(env: Env, acc: Acc, ns: seq<string>): Acc
    decreases |ns|
  {
    if ns == [] then acc else NameStep(env, Names(env, acc, ns[..|ns| - 1]), ns[|ns| - 1])
  }

  /** One more commit is one more CommitStep. */
  lemma CommitsNext(env: Env, acc: Acc, cs: seq<Commit>, i: nat, a: Acc)
    requires i < |cs| && Commits(env, acc, cs[..i]) == a
    ensures Commits(env, acc, cs[..i + 1]) == CommitStep(env, a, cs[i])
  {
    assert cs[..i + 1][..i] == cs[..i];
  }

  /** One more name is one more NameStep. */
  lemma NamesNext(env: Env, acc: Acc, ns: seq<string>, j: nat, a: Acc)
    requires j < |ns| && Names(env, acc, ns[..j]) == a
    ensures Names(env, acc, ns[..j + 1]) == NameStep(env, a, ns[j])
  {
    assert ns[..j + 1][..j] == ns[..j];
  }

  /** str.split(sep): the pieces between separators, empty ones included. */
  function Split(s: string, sep: char): (parts: seq<string>)
    ensures |parts| >= 1
    ensures forall i :: 0 <= i < |parts| ==> sep !in parts[i]
  {
    if s == [] then [[]]
    else
      var rest := Split(s[1..], sep);
      if s[0] == sep then [[]] + rest else [[s[0]] + rest[0]] + rest[1..]
  }

  /** sep.join(parts). */
  function Join(parts: seq<string>, sep: char): string
    requires |parts| >= 1
  {
    if |parts| == 1 then parts[0] else parts[0] + [sep] + Join(parts[1..], sep)
  }

  /** Splitting loses nothing: joining the pieces gives the string back. */
  lemma {:induction false} JoinSplit(s: string, sep: char)
    ensures Join(Split(s, sep), sep) == s
  {
    if s != [] {
      var rest := Split(s[1..], sep);
      JoinSplit(s[1..], sep);
      if s[0] == sep {
        assert ([[]] + rest)[1..] == rest;
        assert s == [] + [sep] + s[1..];
      } else {
        var parts := [[s[0]] + rest[0]] + rest[1..];
        if |rest| > 1 {
          assert parts[1..] == rest[1..];
          assert Join(rest, sep) == rest[0] + [sep] + Join(rest[1..], sep);
        }
        assert s == [s[0]] + s[1..];
      }
    }
  }

  /** get_git_info as a whole, on the memo as it was before the call. */
  function GitInfo(env: Env, authors: Authors, history: seq<Commit>, contributors: Option<string>): Acc
  {
    var a := Commits(env, Start(authors), history);
    if contributors.Some? then Names(env, a, Split(contributors.value, ',')) else a
  }

  // ---------------------------------------------------------------------
  // The de-duplicated list.

  /** `seen_authors` has no duplicates and `unique_authors[i]` is the memo's
      record for `seen_authors[i]`. */
  ghost predicate Wf(acc: Acc)
  {
    && |acc.seen| == |acc.unique|
    && (forall i, j :: 0 <= i < j < |acc.seen| ==> acc.seen[i] != acc.seen[j])
    && (forall i :: 0 <= i < |acc.seen| ==> acc.seen[i] in acc.authors && acc.unique[i] == acc.authors[acc.seen[i]])
  }

  /** `b` is `a` continued: the lists and the lookups only grow at the end,
      the memo keeps every entry, and an exception is never undone. */
  ghost predicate Extends(a: Acc, b: Acc)
  {
    && |a.seen| <= |b.seen| && b.seen[..|a.seen|] == a.seen
    && |a.unique| <= |b.unique| && b.unique[..|a.unique|] == a.unique
    && |a.lookups| <= |b.lookups| && b.lookups[..|a.lookups|] == a.lookups
    && (forall k :: k in a.authors ==> k in b.authors && b.authors[k] == a.authors[k])
    && (a.error.Some? ==> b == a)
  }

  lemma ExtendsTrans(a: Acc, b: Acc, c: Acc)
    requires Extends(a, b) && Extends(b, c)
    ensures Extends(a, c)
  {
    assert c.seen[..|a.seen|] == c.seen[..|b.seen|][..|a.seen|];
    assert c.unique[..|a.unique|] == c.unique[..|b.unique|][..|a.unique|];
    assert c.lookups[..|a.lookups|] == c.lookups[..|b.lookups|][..|a.lookups|];
  }

  lemma VisitKeeps(env: Env, acc: Acc, username: Option<string>, email: Option<string>)
    requires Wf(acc)
    ensures Wf(Visit(env, acc, username, email))
    ensures Extends(acc, Visit(env, acc, username, email))
  {
    if acc.error.None? {
      var m := AuthorMemo.Resolve(acc.authors, env.conn, env.server, username, email);
      AuthorMemo.NeverOverwrites(acc.authors, env.conn, env.server, username, email);
      var b := acc.(authors := m.authors, lookups := acc.lookups + m.lookups);
      assert b.lookups[..|acc.lookups|] == acc.lookups;
      assert Wf(b);
      var c := Absorb(b, m.outcome);
      if m.outcome.Found? && m.outcome.key !in acc.seen {
        assert c.seen[..|acc.seen|] == acc.seen;
        assert c.unique[..|acc.unique|] == acc.unique;
      }
    }
  }

  lemma CommitStepKeeps(env: Env, acc: Acc, c: Commit)
    requires Wf(acc)
    ensures Wf(CommitStep(env, acc, c))
    ensures Extends(acc, CommitStep(env, acc, c))
  {
    if acc.error.None? {
      var date := if acc.lastDate == "" then env.formatDate(c.authoredDate) else acc.lastDate;
      VisitKeeps(env, acc.(lastDate := date), Some(c.name), Some(EmailCleanup.CleanEmail(c.email)));
    }
  }

  lemma {:induction false} CommitsKeep(env: Env, acc: Acc, cs: seq<Commit>)
    requires Wf(acc)
    ensures Wf(Commits(env, acc, cs))
    ensures Extends(acc, Commits(env, acc, cs))
    decreases |cs|
  {
    if cs != [] {
      var a := Commits(env, acc, cs[..|cs| - 1]);
      CommitsKeep(env, acc, cs[..|cs| - 1]);
      CommitStepKeeps(env, a, cs[|cs| - 1]);
      ExtendsTrans(acc, a, Commits(env, acc, cs));
    }
  }

  lemma {:induction false} NamesKeep(env: Env, acc: Acc, ns: seq<string>)
    requires Wf(acc)
    ensures Wf(Names(env, acc, ns))
    ensures Extends(acc, Names(env, acc, ns))
    decreases |ns|
  {
    if ns != [] {
      var a := Names(env, acc, ns[..|ns| - 1]);
      NamesKeep(env, acc, ns[..|ns| - 1]);
      VisitKeeps(env, a, Some(ns[|ns| - 1]), None);
      ExtendsTrans(acc, a, Names(env, acc, ns));
    }
  }

  /** The collection property: no key twice, each record the memo's entry
      for its key, commit-derived keys before metadata-derived ones, and the
      memo before the call kept entry for entry. */
  lemma GitInfoWellFormed(env: Env, authors: Authors, history: seq<Commit>, contributors: Option<string>)
    ensures Wf(GitInfo(env, authors, history, contributors))
    ensures var a := Commits(env, Start(authors), history);
      var r := GitInfo(env, authors, history, contributors);
      && |a.seen| <= |r.seen| && r.seen[..|a.seen|] == a.seen
      && (forall k :: k in authors ==> k in r.authors && r.authors[k] == authors[k])
  {
    var a := Commits(env, Start(authors), history);
    CommitsKeep(env, Start(authors), history);
    if contributors.Some? {
      NamesKeep(env, a, Split(contributors.value, ','));
      ExtendsTrans(Start(authors), a, GitInfo(env, authors, history, contributors));
    }
  }

  // ---------------------------------------------------------------------
  // Which authors are listed.

  /** Append each key not listed yet, in the order given: the de-duplication
      of lines 167-169 and 181-183 applied to a run of found keys. */
  function AddNew(seen: seq<string>, ks: seq<string>): seq<string>
    decreases |ks|
  {
    if ks == [] then seen
    else
      var s := AddNew(seen, ks[..|ks| - 1]);
      if ks[|ks| - 1] in s then s else s + [ks[|ks| - 1]]
  }

  /** A key ends up listed exactly when it was listed before or is one of the keys. */
  lemma {:induction false} AddNewMembers(seen: seq<string>, ks: seq<string>)
    ensures forall k :: k in AddNew(seen, ks) <==> k in seen || k in ks
    decreases |ks|
  {
    if ks != [] {
      AddNewMembers(seen, ks[..|ks| - 1]);
      assert ks == ks[..|ks| - 1] + [ks[|ks| - 1]];
    }
  }

  /** Adding two runs one after the other is adding their concatenation. */
  lemma {:induction false} AddNewAppend(seen: seq<string>, a: seq<string>, b: seq<string>)
    ensures AddNew(AddNew(seen, a), b) == AddNew(seen, a + b)
    decreases |b|
  {
    if b != [] {
      AddNewAppend(seen, a, b[..|b| - 1]);
      var ab := a + b;
      assert ab[..|ab| - 1] == a + b[..|b| - 1] && ab[|ab| - 1] == b[|b| - 1];
    } else {
      assert a + b == a;
    }
  }

  /** The key one visit reports found, if it reports one; a visit after an
      exception reports nothing. */
  function VisitKey(env: Env, acc: Acc, username: Option<string>, email: Option<string>): seq<string>
  {
    if acc.error.Some? then []
    else
      var o := AuthorMemo.Resolve(acc.authors, env.conn, env.server, username, email).outcome;
      if o.Found? then [o.key] else []
  }

  /** One visit (lines 165-169, 176-183): a found author whose key is new is
      appended with its record; any other answer leaves both lists alone,
      and "not found" raises nothing. */
  lemma VisitAppends(env: Env, acc: Acc, username: Option<string>, email: Option<string>)
    ensures var v := Visit(env, acc, username, email);
      v.seen == AddNew(acc.seen, VisitKey(env, acc, username, email))
    ensures acc.error.None? ==>
      var m := AuthorMemo.Resolve(acc.authors, env.conn, env.server, username, email);
      var v := Visit(env, acc, username, email);
      && (m.outcome.Found? && m.outcome.key !in acc.seen ==>
            v.seen == acc.seen + [m.outcome.key] && v.unique == acc.unique + [m.outcome.info])
      && (!(m.outcome.Found? && m.outcome.key !in acc.seen) ==> v.seen == acc.seen && v.unique == acc.unique)
      && (m.outcome.NotFound? ==> v.error.None?)
  {
    assert [] + VisitKey(env, acc, username, email) == VisitKey(env, acc, username, email);
  }

  /** The keys the commit steps report found, in history order. */
  function CommitKeys(env: Env, acc: Acc, cs: seq<Commit>): seq<string>
    decreases |cs|
  {
    if cs == [] then []
    else
      var c := cs[|cs| - 1];
      CommitKeys(env, acc, cs[..|cs| - 1])
        + VisitKey(env, Commits(env, acc, cs[..|cs| - 1]), Some(c.name), Some(EmailCleanup.CleanEmail(c.email)))
  }

  /** The keys the metadata steps report found, in list order. */
  function NameKeys(env: Env, acc: Acc, ns: seq<string>): seq<string>
    decreases |ns|
  {
    if ns == [] then []
    else NameKeys(env, acc, ns[..|ns| - 1]) + VisitKey(env, Names(env, acc, ns[..|ns| - 1]), Some(ns[|ns| - 1]), None)
  }

  lemma {:induction false} CommitsSeen(env: Env, acc: Acc, cs: seq<Commit>)
    ensures Commits(env, acc, cs).seen == AddNew(acc.seen, CommitKeys(env, acc, cs))
    decreases |cs|
  {
    if cs != [] {
      var p, c := cs[..|cs| - 1], cs[|cs| - 1];
      var a := Commits(env, acc, p);
      CommitsSeen(env, acc, p);
      var u, e := Some(c.name), Some(EmailCleanup.CleanEmail(c.email));
      if a.error.None? {
        var date := if a.lastDate == "" then env.formatDate(c.authoredDate) else a.lastDate;
        VisitAppends(env, a.(lastDate := date), u, e);
        assert VisitKey(env, a.(lastDate := date), u, e) == VisitKey(env, a, u, e);
      }
      AddNewAppend(acc.seen, CommitKeys(env, acc, p), VisitKey(env, a, u, e));
    }
  }

  lemma {:induction false} NamesSeen(env: Env, acc: Acc, ns: seq<string>)
    ensures Names(env, acc, ns).seen == AddNew(acc.seen, NameKeys(env, acc, ns))
    decreases |ns|
  {
    if ns != [] {
      var p := ns[..|ns| - 1];
      var a := Names(env, acc, p);
      NamesSeen(env, acc, p);
      VisitAppends(env, a, Some(ns[|ns| - 1]), None);
      AddNewAppend(acc.seen, NameKeys(env, acc, p), VisitKey(env, a, Some(ns[|ns| - 1]), None));
    }
  }

  /** Every key some lookup of the page reported found, commits first and
      then the metadata names. */
  function PageKeys(env: Env, authors: Authors, history: seq<Commit>, contributors: Option<string>): seq<string>
  {
    var a := Commits(env, Start(authors), history);
    CommitKeys(env, Start(authors), history)
      + (if contributors.Some? then NameKeys(env, a, Split(contributors.value, ',')) else [])
  }

  /** The authors get_git_info lists: the keys its lookups reported found,
      each once, in first-found order, each with its memo record. A key is
      listed exactly when some lookup reported it; unresolved authors are
      skipped. */
  lemma GitInfoListsFound(env: Env, authors: Authors, history: seq<Commit>, contributors: Option<string>)
    ensures var r := GitInfo(env, authors, history, contributors);
      var ks := PageKeys(env, authors, history, contributors);
      && r.seen == AddNew([], ks)
      && (forall k :: k in r.seen <==> k in ks)
      && |r.unique| == |r.seen|
      && (forall i :: 0 <= i < |r.seen| ==> r.seen[i] in r.authors && r.unique[i] == r.authors[r.seen[i]])
  {
    var a := Commits(env, Start(authors), history);
    var ks := PageKeys(env, authors, history, contributors);
    CommitsSeen(env, Start(authors), history);
    if contributors.Some? {
      var ns := Split(contributors.value, ',');
      NamesSeen(env, a, ns);
      AddNewAppend([], CommitKeys(env, Start(authors), history), NameKeys(env, a, ns));
    } else {
      assert ks == CommitKeys(env, Start(authors), history);
    }
    AddNewMembers([], ks);
    GitInfoWellFormed(env, authors, history, contributors);
  }

  /** Two commits, newest first, by two authors the memo does not hold, both
      found by the remote search: both are listed, newest first, each stored
      under its cleaned e-mail. */
  lemma TwoSearchedAuthors(env: Env, authors: Authors, c1: Commit, c2: Commit, r1: Record, r2: Record)
    requires var e1, e2 := EmailCleanup.CleanEmail(c1.email), EmailCleanup.CleanEmail(c2.email);
      && e1 != e2 && c2.name != e1
      && c1.name !in authors && e1 !in authors && c2.name !in authors && e2 !in authors
      && AuthorMemo.Search(env.conn, env.server, Some(c1.name), Some(e1)).0 == Hit(r1)
      && AuthorMemo.Search(env.conn, env.server, Some(c2.name), Some(e2)).0 == Hit(r2)
    ensures var r := GitInfo(env, authors, [c1, c2], None);
      var e1, e2 := EmailCleanup.CleanEmail(c1.email), EmailCleanup.CleanEmail(c2.email);
      && r.seen == [e1, e2] && r.unique == [r1, r2]
      && r.authors == authors[e1 := r1][e2 := r2] && r.error.None?
  {
    hide AuthorMemo.Resolve;
    var e1, e2 := EmailCleanup.CleanEmail(c1.email), EmailCleanup.CleanEmail(c2.email);
    var cs := [c1, c2];
    assert cs[..1] == [c1] && [c1][..0] == [];
    AuthorMemo.SearchHitStored(authors, env.conn, env.server, Some(c1.name), Some(e1), r1);
    var a1 := CommitStep(env, Start(authors), c1);
    assert a1.seen == [e1] && a1.unique == [r1] && a1.authors == authors[e1 := r1] && a1.error.None?;
    AuthorMemo.SearchHitStored(a1.authors, env.conn, env.server, Some(c2.name), Some(e2), r2);
    var a2 := CommitStep(env, a1, c2);
    assert a2.seen == [e1, e2] && a2.unique == [r1, r2] && a2.authors == authors[e1 := r1][e2 := r2] && a2.error.None?;
    assert Commits(env, Start(authors), [c1]) == a1;
    assert Commits(env, Start(authors), cs) == a2;
  }
  /** Two commits whose e-mails clean to the same key, the first found by the
      remote search: one record is listed, whatever the second author's name,
      as long as that name is not a key of the memo before the call. */
  lemma SameEmailOnce(env: Env, authors: Authors, c1: Commit, c2: Commit, r1: Record)
    requires var e := EmailCleanup.CleanEmail(c1.email);
      && EmailCleanup.CleanEmail(c2.email) == e
      && c1.name !in authors && e !in authors && c2.name !in authors
      && AuthorMemo.Search(env.conn, env.server, Some(c1.name), Some(e)).0 == Hit(r1)
    ensures var r := GitInfo(env, authors, [c1, c2], None);
      var e := EmailCleanup.CleanEmail(c1.email);
      && r.seen == [e] && r.unique == [r1] && r.authors == authors[e := r1] && r.error.None?
  {
    hide AuthorMemo.Resolve;
    var e := EmailCleanup.CleanEmail(c1.email);
    var cs := [c1, c2];
    assert cs[..1] == [c1] && [c1][..0] == [];
    AuthorMemo.SearchHitStored(authors, env.conn, env.server, Some(c1.name), Some(e), r1);
    var a1 := CommitStep(env, Start(authors), c1);
    assert a1.seen == [e] && a1.unique == [r1] && a1.authors == authors[e := r1] && a1.error.None?;
    AuthorMemo.CacheHit(a1.authors, env.conn, env.server, Some(c2.name), Some(e));
    var a2 := CommitStep(env, a1, c2);
    assert a2.seen == [e] && a2.unique == [r1] && a2.authors == authors[e := r1] && a2.error.None?;
    assert Commits(env, Start(authors), [c1]) == a1;
    assert Commits(env, Start(authors), cs) == a2;
  }

  /** When the second author's name is already a key, the name wins the
      cache hit (lines 141-144): the same cleaned e-mail is listed a second
      time, under the name, with the memo's record for the name. */
  lemma SameEmailNameKnown(env: Env, authors: Authors, c1: Commit, c2: Commit, r1: Record)
    requires var e := EmailCleanup.CleanEmail(c1.email);
      && EmailCleanup.CleanEmail(c2.email) == e
      && c1.name !in authors && e !in authors && c2.name in authors
      && AuthorMemo.Search(env.conn, env.server, Some(c1.name), Some(e)).0 == Hit(r1)
    ensures var r := GitInfo(env, authors, [c1, c2], None);
      var e := EmailCleanup.CleanEmail(c1.email);
      && r.seen == [e, c2.name] && r.unique == [r1, authors[c2.name]] && r.error.None?
  {
    hide AuthorMemo.Resolve;
    var e := EmailCleanup.CleanEmail(c1.email);
    var cs := [c1, c2];
    assert cs[..1] == [c1] && [c1][..0] == [];
    AuthorMemo.SearchHitStored(authors, env.conn, env.server, Some(c1.name), Some(e), r1);
    var a1 := CommitStep(env, Start(authors), c1);
    assert a1.seen == [e] && a1.unique == [r1] && a1.authors == authors[e := r1] && a1.error.None?;
    assert c2.name != e;
    AuthorMemo.CacheHit(a1.authors, env.conn, env.server, Some(c2.name), Some(e));
    var a2 := CommitStep(env, a1, c2);
    assert a2.seen == [e, c2.name] && a2.unique == [r1, authors[c2.name]] && a2.error.None?;
    assert Commits(env, Start(authors), [c1]) == a1;
    assert Commits(env, Start(authors), cs) == a2;
  }


  // ---------------------------------------------------------------------
  // Dates.

  /** A step takes the commit's date only when no date is taken yet and no
      exception has been raised; resolving the author leaves it alone. */
  lemma StepDate(env: Env, acc: Acc, c: Commit)
    ensures CommitStep(env, acc, c).lastDate
            == if acc.error.None? && acc.lastDate == "" then env.formatDate(c.authoredDate) else acc.lastDate
  {
    hide AuthorMemo.Resolve;
  }

  lemma {:induction false} CommitsDate(env: Env, acc: Acc, cs: seq<Commit>)
    requires acc.lastDate == "" && acc.error.None?
    ensures cs == [] ==> Commits(env, acc, cs).lastDate == ""
    ensures cs != [] && env.formatDate(cs[0].authoredDate) != "" ==>
      Commits(env, acc, cs).lastDate == env.formatDate(cs[0].authoredDate)
    decreases |cs|
  {
    hide CommitStep;
    if cs != [] {
      StepDate(env, Commits(env, acc, cs[..|cs| - 1]), cs[|cs| - 1]);
    }
    if |cs| > 1 {
      var p := cs[..|cs| - 1];
      CommitsDate(env, acc, p);
      assert p[0] == cs[0];
    } else if |cs| == 1 {
      assert cs[..0] == [];
    }
  }

  lemma {:induction false} NamesKeepDate(env: Env, acc: Acc, ns: seq<string>)
    ensures Names(env, acc, ns).lastDate == acc.lastDate
    decreases |ns|
  {
    if ns != [] {
      NamesKeepDate(env, acc, ns[..|ns| - 1]);
    }
  }

  /** `last_commit_date` is the formatted date of the first (most recent)
      commit, or "" for a page without history. */
  lemma LastCommitDate(env: Env, authors: Authors, history: seq<Commit>, contributors: Option<string>)
    ensures history == [] ==> GitInfo(env, authors, history, contributors).lastDate == ""
    ensures history != [] && env.formatDate(history[0].authoredDate) != "" ==>
      GitInfo(env, authors, history, contributors).lastDate == env.formatDate(history[0].authoredDate)
  {
    CommitsDate(env, Start(authors), history);
    if contributors.Some? {
      NamesKeepDate(env, Commits(env, Start(authors), history), Split(contributors.value, ','));
    }
  }

  /** A page without history or metadata gets nothing and asks nothing. */
  lemma EmptyPage(env: Env, authors: Authors)
    ensures GitInfo(env, authors, [], None) == Start(authors)
  {
  }

  // ---------------------------------------------------------------------
  // Repeated authors, and keys rather than logins.

  /** A second commit by the same author (same name, same email once
      cleaned) adds nothing to the list. */
  lemma RepeatedAuthor(env: Env, acc: Acc, c1: Commit, c2: Commit)
    requires acc.error.None?
    requires c1.name == c2.name && EmailCleanup.CleanEmail(c1.email) == EmailCleanup.CleanEmail(c2.email)
    ensures var a := CommitStep(env, acc, c1);
      var b := CommitStep(env, a, c2);
      b.seen == a.seen && b.unique == a.unique && b.authors == a.authors
  {
    var u, e := Some(c1.name), Some(EmailCleanup.CleanEmail(c1.email));
    var m := AuthorMemo.Resolve(acc.authors, env.conn, env.server, u, e);
    if m.outcome.Found? {
      AuthorMemo.ResolveAgain(acc.authors, env.conn, env.server, u, e);
    }
  }

  /** Without a token and with an empty memo no commit author is resolved,
      and a page that declares contributors raises at its first name: the
      miss of a name without email reaches the concatenation of line 138. */
  lemma NoTokenContributorsRaise(server: Request -> Response, formatDate: int -> string,
                                 history: seq<Commit>, contributors: string)
    ensures var r := GitInfo(Env(None, server, formatDate), map[], history, None);
      r.unique == [] && r.error.None? && r.authors == map[]
    ensures GitInfo(Env(None, server, formatDate), map[], history, Some(contributors)).error
            == Some(NoneConcatenation)
  {
    var env := Env(None, server, formatDate);
    NoTokenCommits(env, history);
    NoTokenNames(env, Commits(env, Start(map[]), history), Split(contributors, ','));
  }

  lemma {:induction false} NoTokenCommits(env: Env, cs: seq<Commit>)
    requires env.conn.None?
    ensures var r := Commits(env, Start(map[]), cs);
      r.unique == [] && r.seen == [] && r.error.None? && r.authors == map[]
    decreases |cs|
  {
    hide AuthorMemo.Resolve;
    if cs != [] {
      NoTokenCommits(env, cs[..|cs| - 1]);
      var c := cs[|cs| - 1];
      var u, e := Some(c.name), Some(EmailCleanup.CleanEmail(c.email));
      AuthorMemo.SearchFollowsPlan(None, env.server, u, e);
      AuthorMemo.NoTokenMisses(env.server, AuthorMemo.Plan(u, e));
      AuthorMemo.Miss(map[], None, env.server, u, e);
    }
  }

  lemma {:induction false} NoTokenNames(env: Env, acc: Acc, ns: seq<string>)
    requires env.conn.None? && acc.authors == map[] && acc.error.None? && ns != []
    ensures Names(env, acc, ns).error == Some(NoneConcatenation)
    decreases |ns|
  {
    if |ns| == 1 {
      assert ns[..0] == [];
      AuthorMemo.NoTokenNoStore(map[], env.server, Some(ns[0]), None);
      AuthorMemo.LookupOrder(map[], None, env.server, Some(ns[0]), None);
    } else {
      NoTokenNames(env, acc, ns[..|ns| - 1]);
    }
  }

  /** A commit whose cleaned email is cached, and whose name is not,
      appends that email's entry when the key is new. */
  lemma CachedEmail(env: Env, acc: Acc, c: Commit)
    requires acc.error.None?
    requires EmailCleanup.CleanEmail(c.email) in acc.authors && c.name !in acc.authors
    requires EmailCleanup.CleanEmail(c.email) !in acc.seen
    ensures var k := EmailCleanup.CleanEmail(c.email);
      var b := CommitStep(env, acc, c);
      b.seen == acc.seen + [k] && b.unique == acc.unique + [acc.authors[k]]
      && b.authors == acc.authors && b.error.None?
  {
  }

  /** De-duplication is by memo key, not by login: two commits whose
      cleaned emails are different keys cached with the same profile put
      that profile in the list twice. */
  lemma SameProfileTwice(env: Env, authors: Authors, c1: Commit, c2: Commit)
    requires var k1, k2 := EmailCleanup.CleanEmail(c1.email), EmailCleanup.CleanEmail(c2.email);
      k1 != k2 && k1 in authors && k2 in authors && authors[k1] == authors[k2]
    requires c1.name !in authors && c2.name !in authors
    ensures var r := GitInfo(env, authors, [c1, c2], None);
      var k1, k2 := EmailCleanup.CleanEmail(c1.email), EmailCleanup.CleanEmail(c2.email);
      r.seen == [k1, k2] && r.unique == [authors[k1], authors[k1]]
  {
    hide CommitStep;
    var s0 := Start(authors);
    CachedEmail(env, s0, c1);
    var s1 := CommitStep(env, s0, c1);
    CachedEmail(env, s1, c2);
    assert [c1, c2][..1] == [c1];
    assert [c1][..0] == [];
    assert Commits(env, s0, [c1]) == s1;
  }

  // ---------------------------------------------------------------------
  // An exception ends the walk.

  lemma {:induction false} CommitsAfterError(env: Env, acc: Acc, cs: seq<Commit>, i: nat)
    requires i <= |cs| && Commits(env, acc, cs[..i]).error.Some?
    ensures Commits(env, acc, cs) == Commits(env, acc, cs[..i])
    decreases |cs|
  {
    if i == |cs| {
      assert cs[..i] == cs;
    } else {
      var p := cs[..|cs| - 1];
      assert p[..i] == cs[..i];
      CommitsAfterError(env, acc, p, i);
    }
  }

  lemma {:induction false} NamesAfterError(env: Env, acc: Acc, ns: seq<string>, i: nat)
    requires i <= |ns| && Names(env, acc, ns[..i]).error.Some?
    ensures Names(env, acc, ns) == Names(env, acc, ns[..i])
    decreases |ns|
  {
    if i == |ns| {
      assert ns[..i] == ns;
    } else {
      var p := ns[..|ns| - 1];
      assert p[..i] == ns[..i];
      NamesAfterError(env, acc, p, i);
    }
  }

  /** An exception in the commit loop is what get_git_info ends in. */
  lemma GitInfoStopsInCommits(env: Env, authors: Authors, history: seq<Commit>, contributors: Option<string>, i: nat)
    requires i <= |history| && Commits(env, Start(authors), history[..i]).error.Some?
    ensures GitInfo(env, authors, history, contributors) == Commits(env, Start(authors), history[..i])
  {
    var a := Commits(env, Start(authors), history[..i]);
    CommitsAfterError(env, Start(authors), history, i);
    if contributors.Some? {
      var ns := Split(contributors.value, ',');
      assert ns[..0] == [];
      NamesAfterError(env, a, ns, 0);
    }
  }

  /** So is an exception in the metadata loop. */
  lemma GitInfoStopsInNames(env: Env, authors: Authors, history: seq<Commit>, contributors: Option<string>, j: nat)
    requires contributors.Some?
    requires var ns := Split(contributors.value, ',');
      j <= |ns| && Names(env, Commits(env, Start(authors), history), ns[..j]).error.Some?
    ensures var ns := Split(contributors.value, ',');
      GitInfo(env, authors, history, contributors) == Names(env, Commits(env, Start(authors), history), ns[..j])
  {
    NamesAfterError(env, Commits(env, Start(authors), history), Split(contributors.value, ','), j);
  }

  /** The result get_git_info returns, or the exception it raises. */
  datatype Contribution = Contribution(committers: seq<Record>, lastCommitDate: string)

  function Returned(acc: Acc): Result<Contribution>
  {
    if acc.error.Some? then Err(acc.error.value) else Ok(Contribution(acc.unique, acc.lastDate))
  }
}
