/** The schema bootstrap's SQL splitter: a character-by-character scan that
    tracks quotes and backslash escapes and cuts the script at every `;`
    outside quotes, and the rule that decides which of the resulting
    statements are sent to the server. */
module InitDb {
  import Text

  // ---------------------------------------------------------------------
  // The scanner's state

  /** Inside a `'…'`, `"…"` or `` `…` `` literal, and whether the previous
      character was an unescaped backslash. */
  datatype LexState = LexState(inSingle: bool, inDouble: bool, inBacktick: bool, escape: bool)

  const Start := LexState(false, false, false, false)

  /** Whether the scanner is outside every quote. */
  predicate Outside(st: LexState) {
    !st.inSingle && !st.inDouble && !st.inBacktick
  }

  /** The state after reading `ch`: an escaped character only ends the
      escape; a backslash starts one; each quote toggles its own mode only
      when the other two are off. */
  function Step(st: LexState, ch: char): LexState {
    if st.escape then st.(escape := false)
    else if ch == '\\' then st.(escape := true)
    else if ch == '\'' && !st.inDouble && !st.inBacktick then st.(inSingle := !st.inSingle)
    else if ch == '"' && !st.inSingle && !st.inBacktick then st.(inDouble := !st.inDouble)
    else if ch == '`' && !st.inSingle && !st.inDouble then st.(inBacktick := !st.inBacktick)
    else st
  }

  /** The state before the character at index `i`. */
  function StateAt(sql: string, i: nat): LexState
    requires i <= |sql|
  {
    if i == 0 then Start else Step(StateAt(sql, i - 1), sql[i - 1])
  }

  /** What one character does to the state: an escaped character only ends
      the escape, an unescaped backslash starts one, and each quote mode
      flips exactly on its own quote character met outside the other two
      modes. */
  lemma StepEffect(st: LexState, ch: char)
    ensures var r := Step(st, ch);
            && (st.escape ==> r == st.(escape := false))
            && (!st.escape ==> (r.escape <==> ch == '\\'))
            && (r.inSingle != st.inSingle <==> !st.escape && ch == '\'' && !st.inDouble && !st.inBacktick)
            && (r.inDouble != st.inDouble <==> !st.escape && ch == '"' && !st.inSingle && !st.inBacktick)
            && (r.inBacktick != st.inBacktick <==> !st.escape && ch == '`' && !st.inSingle && !st.inDouble)
  {
  }

  /** The character at `i` is a `;` that ends a statement. */
  predicate IsCut(sql: string, i: nat)
    requires i < |sql|
  {
    var st := StateAt(sql, i);
    sql[i] == ';' && !st.escape && Outside(st)
  }

  // ---------------------------------------------------------------------
  // What the splitter returns

  /** Where the piece that is open before index `k` begins: just after the
      last cut below `k`, or at 0. */
  function PieceStart(sql: string, k: nat): (start: nat)
    requires k <= |sql|
    ensures start <= k
  {
    if k == 0 then 0 else if IsCut(sql, k - 1) then k else PieceStart(sql, k - 1)
  }

  /** The text of the piece that is open before index `k`: what follows
      the last cut below `k`. */
  function OpenPiece(sql: string, k: nat): string
    requires k <= |sql|
  {
    if k == 0 then []
    else if IsCut(sql, k - 1) then []
    else OpenPiece(sql, k - 1) + [sql[k - 1]]
  }

  /** The open piece is the script from the piece's start up to `k`. */
  lemma {:induction false} OpenPieceIsSlice(sql: string, k: nat)
    requires k <= |sql|
    ensures OpenPiece(sql, k) == sql[PieceStart(sql, k)..k]
  {
    if k > 0 && !IsCut(sql, k - 1) {
      OpenPieceIsSlice(sql, k - 1);
      assert sql[PieceStart(sql, k - 1)..k] == sql[PieceStart(sql, k - 1)..k - 1] + [sql[k - 1]];
    }
  }

  /** The pieces closed by the cuts below `k`, each without its `;`, in
      order. */
  function ClosedBelow(sql: string, k: nat): seq<string>
    requires k <= |sql|
  {
    if k == 0 then []
    else if IsCut(sql, k - 1) then ClosedBelow(sql, k - 1) + [OpenPiece(sql, k - 1)]
    else ClosedBelow(sql, k - 1)
  }

  /** The number of cuts below `k`. */
  function CutCount(sql: string, k: nat): nat
    requires k <= |sql|
  {
    if k == 0 then 0 else CutCount(sql, k - 1) + (if IsCut(sql, k - 1) then 1 else 0)
  }

  /** The pieces of the whole script: one per cut, and the rest. */
  function Pieces(sql: string): seq<string> {
    ClosedBelow(sql, |sql|) + [OpenPiece(sql, |sql|)]
  }

  /** Each piece stripped, keeping the non-empty ones in order. */
  function Clean(pieces: seq<string>): seq<string> {
    if pieces == [] then []
    else
      var s := Text.Strip(pieces[|pieces| - 1]);
      Clean(pieces[..|pieces| - 1]) + (if s != [] then [s] else [])
  }

  /** No blank at either end: what `strip()` returns. */
  predicate Trimmed(s: string) {
    s == [] || (s[0] !in Text.Whitespace && s[|s| - 1] !in Text.Whitespace)
  }

  /** Cleaning keeps at most every piece, and what it keeps is trimmed and
      not empty. */
  lemma {:induction false} CleanShape(pieces: seq<string>)
    ensures var stmts := Clean(pieces);
            && |stmts| <= |pieces|
            && forall j :: 0 <= j < |stmts| ==> stmts[j] != [] && Trimmed(stmts[j])
  {
    if pieces != [] {
      var init := Clean(pieces[..|pieces| - 1]);
      CleanShape(pieces[..|pieces| - 1]);
      var s := Text.Strip(pieces[|pieces| - 1]);
      if s != [] {
        var stmts := init + [s];
        assert Clean(pieces) == stmts;
        StripTrimmed(pieces[|pieces| - 1]);
        forall j | 0 <= j < |stmts|
          ensures stmts[j] != [] && Trimmed(stmts[j])
        {
          if j < |init| {
            assert stmts[j] == init[j];
          }
        }
      }
    }
  }

  /** What `strip()` returns is trimmed. */
  lemma StripTrimmed(x: string)
    ensures Trimmed(Text.Strip(x))
  {
    var r := Text.Trim(x, Text.Whitespace);
    assert r == [] || (r[0] !in Text.Whitespace && r[|r| - 1] !in Text.Whitespace);
    assert Text.Strip(x) == r;
  }

  /** `_split_sql`: the pieces, stripped, without the empty ones. */
  function SplitSpec(sql: string): seq<string> {
    Clean(Pieces(sql))
  }

  /** The scan itself: the four flags, the current buffer and the
      statements found so far. */
  method SplitSql(sql: string) returns (stmts: seq<string>)
    ensures stmts == SplitSpec(sql)
  {
    stmts := [];
    var buf: string := [];
    var inSingle, inDouble, inBacktick, escape := false, false, false, false;
    var k := 0;
    ghost var closed: seq<string> := [];
    while k < |sql|
      invariant 0 <= k <= |sql|
      invariant LexState(inSingle, inDouble, inBacktick, escape) == StateAt(sql, k)
      invariant buf == OpenPiece(sql, k)
      invariant closed == ClosedBelow(sql, k)
      invariant stmts == Clean(closed)
    {
      var ch := sql[k];
      if escape {
        buf := buf + [ch];
        escape := false;
      } else if ch == '\\' {
        buf := buf + [ch];
        escape := true;
      } else if ch == '\'' && !inDouble && !inBacktick {
        inSingle := !inSingle;
        buf := buf + [ch];
      } else if ch == '"' && !inSingle && !inBacktick {
        inDouble := !inDouble;
        buf := buf + [ch];
      } else if ch == '`' && !inSingle && !inDouble {
        inBacktick := !inBacktick;
        buf := buf + [ch];
      } else if ch == ';' && !inSingle && !inDouble && !inBacktick {
        CleanAppend(closed, buf);
        closed := closed + [buf];
        var stmt := Text.Strip(buf);
        buf := [];
        if stmt != [] {
          stmts := stmts + [stmt];
        }
      } else {
        buf := buf + [ch];
      }
      k := k + 1;
    }
    assert Pieces(sql) == closed + [buf];
    CleanAppend(closed, buf);
    var last := Text.Strip(buf);
    if last != [] {
      stmts := stmts + [last];
    }
  }

  /** Cleaning one more piece adds its stripped text when that is not
      empty. */
  lemma CleanAppend(pieces: seq<string>, piece: string)
    ensures var s := Text.Strip(piece);
            Clean(pieces + [piece]) == Clean(pieces) + (if s != [] then [s] else [])
  {
    var all := pieces + [piece];
    assert all != [] && |all| - 1 == |pieces|;
    assert all[|all| - 1] == piece;
    assert all[..|all| - 1] == pieces;
  }

  // ---------------------------------------------------------------------
  // Properties of the split

  /** One piece is closed per cut. */
  lemma {:induction false} ClosedPerCut(sql: string, k: nat)
    requires k <= |sql|
    ensures |ClosedBelow(sql, k)| == CutCount(sql, k)
  {
    if k > 0 {
      ClosedPerCut(sql, k - 1);
    }
  }

  /** Every statement is stripped and non-empty, and there is at most one
      statement more than there are top-level `;`. */
  lemma SplitShape(sql: string)
    ensures var stmts := SplitSpec(sql);
            && |stmts| <= CutCount(sql, |sql|) + 1
            && forall j :: 0 <= j < |stmts| ==> stmts[j] != [] && Trimmed(stmts[j])
  {
    ClosedPerCut(sql, |sql|);
    CleanShape(Pieces(sql));
  }

  /** Each piece followed by its `;`. */
  function Terminated(pieces: seq<string>): string {
    if pieces == [] then [] else Terminated(pieces[..|pieces| - 1]) + pieces[|pieces| - 1] + ";"
  }

  /** The closed pieces, each given its `;` back, are the script up to the
      open piece. */
  lemma {:induction false} ClosedRejoins(sql: string, k: nat)
    requires k <= |sql|
    ensures Terminated(ClosedBelow(sql, k)) == sql[..PieceStart(sql, k)]
  {
    if k > 0 {
      ClosedRejoins(sql, k - 1);
      if IsCut(sql, k - 1) {
        var closed := ClosedBelow(sql, k);
        assert closed[..|closed| - 1] == ClosedBelow(sql, k - 1);
        OpenPieceIsSlice(sql, k - 1);
        var p := PieceStart(sql, k - 1);
        assert sql[..p] + sql[p..k - 1] + [sql[k - 1]] == sql[..k];
      }
    }
  }

  /** Nothing is lost or reordered: putting each `;` back after its piece
      and appending the last piece gives the script again. */
  lemma SplitRejoins(sql: string)
    ensures var pieces := Pieces(sql);
            Terminated(pieces[..|pieces| - 1]) + pieces[|pieces| - 1] == sql
  {
    ClosedRejoins(sql, |sql|);
    OpenPieceIsSlice(sql, |sql|);
    var pieces := Pieces(sql);
    assert pieces[..|pieces| - 1] == ClosedBelow(sql, |sql|);
    var p := PieceStart(sql, |sql|);
    assert sql[..p] + sql[p..] == sql;
  }

  /** Without a cut below `k` nothing is closed and the open piece is all
      of the script up to `k`. */
  lemma {:induction false} NoCutsBelow(sql: string, k: nat)
    requires k <= |sql|
    requires forall i :: 0 <= i < |sql| ==> !IsCut(sql, i)
    ensures ClosedBelow(sql, k) == [] && OpenPiece(sql, k) == sql[..k]
  {
    if k > 0 {
      NoCutsBelow(sql, k - 1);
      assert sql[..k] == sql[..k - 1] + [sql[k - 1]];
    }
  }

  /** A script without a top-level `;` is one statement, or none when it is
      blank. */
  lemma NoCutOneStatement(sql: string)
    requires forall i :: 0 <= i < |sql| ==> !IsCut(sql, i)
    ensures SplitSpec(sql) == if Text.Strip(sql) == [] then [] else [Text.Strip(sql)]
  {
    NoCutsBelow(sql, |sql|);
    assert sql[..|sql|] == sql;
    assert Pieces(sql) == [sql];
    assert [sql][..0] == [];
    assert Clean([sql]) == Clean([]) + (if Text.Strip(sql) != [] then [Text.Strip(sql)] else []);
  }

  /** At most one quote mode is on at any point. */
  lemma {:induction false} QuotesExclusive(sql: string, i: nat)
    requires i <= |sql|
    ensures var st := StateAt(sql, i);
            (st.inSingle ==> !st.inDouble && !st.inBacktick) && (st.inDouble ==> !st.inBacktick)
  {
    if i > 0 {
      QuotesExclusive(sql, i - 1);
    }
  }

  /** The character after a backslash is kept as text: it never cuts and
      never changes a quote mode, and the escape ends with it. */
  lemma EscapedCharIsText(sql: string, i: nat)
    requires 0 < i < |sql| && sql[i - 1] == '\\' && !StateAt(sql, i - 1).escape
    ensures !IsCut(sql, i)
    ensures var before := StateAt(sql, i); var after := StateAt(sql, i + 1);
            before.escape && after == before.(escape := false)
  {
  }

  /** The three quote characters the scanner tracks. */
  const Quotes: set<char> := {'\'', '"', '`'}

  /** The state just inside a literal opened by the quote character `q`. */
  function QuoteOpen(q: char): LexState
    requires q in Quotes
  {
    LexState(q == '\'', q == '"', q == '`', false)
  }

  /** A `;` inside a quoted literal is kept as text: from an opening quote
      of any of the three kinds, met outside quotes, up to the next quote of
      the same kind or backslash, only that quote mode is on and nothing
      cuts. */
  lemma {:induction false} QuotedSemicolonKept(sql: string, q: char, open: nat, j: nat)
    requires q in Quotes && open < j <= |sql|
    requires sql[open] == q && !StateAt(sql, open).escape && Outside(StateAt(sql, open))
    requires forall k :: open < k < j ==> sql[k] != q && sql[k] != '\\'
    ensures StateAt(sql, j) == QuoteOpen(q)
    ensures forall k :: open < k < j ==> !IsCut(sql, k)
    decreases j
  {
    if j > open + 1 {
      QuotedSemicolonKept(sql, q, open, j - 1);
    }
  }

  // ---------------------------------------------------------------------
  // Which statements run

  /** A MySQL client command such as `DELIMITER //`, recognised in any
      letter case. */
  predicate IsDelimiterCommand(s: string) {
    Text.StartsWith(Text.AsciiLowerString(s), "delimiter ")
  }

  /** The statements `main` executes, in order: each one stripped, skipping
      the blank ones and the `delimiter` commands. */
  function Executed(stmts: seq<string>): seq<string> {
    if stmts == [] then []
    else
      var s := Text.Strip(stmts[|stmts| - 1]);
      Executed(stmts[..|stmts| - 1]) + (if s == [] || IsDelimiterCommand(s) then [] else [s])
  }

  /** The loop of `main` over the split script; `fails(s)` says whether the
      server rejects statement `s`. */
  method ExecuteSchema(sql: string, fails: string -> bool) returns (run: seq<string>, ok: bool)
    ensures run <= Executed(SplitSpec(sql))
    ensures forall i :: 0 <= i < |run| - 1 ==> !fails(run[i])
    ensures ok ==> run == Executed(SplitSpec(sql)) && forall i :: 0 <= i < |run| ==> !fails(run[i])
    ensures !ok ==> run != [] && fails(run[|run| - 1])
    ensures ok <==> forall i :: 0 <= i < |Executed(SplitSpec(sql))| ==> !fails(Executed(SplitSpec(sql))[i])
  {
    var stmts := SplitSql(sql);
    run, ok := ExecuteStatements(stmts, fails);
  }

  /** The body of that loop, statement by statement: each stripped statement
      that is neither blank nor a `delimiter` command is sent, and the first
      one the server rejects raises out of the loop, so nothing after it is
      sent. `run` is what was sent, the rejected statement last; `ok` is
      false when one was rejected. */
  method ExecuteStatements(stmts: seq<string>, fails: string -> bool) returns (run: seq<string>, ok: bool)
    ensures run <= Executed(stmts)
    ensures forall i :: 0 <= i < |run| - 1 ==> !fails(run[i])
    ensures ok ==> run == Executed(stmts) && forall i :: 0 <= i < |run| ==> !fails(run[i])
    ensures !ok ==> run != [] && fails(run[|run| - 1])
    ensures ok <==> forall i :: 0 <= i < |Executed(stmts)| ==> !fails(Executed(stmts)[i])
  {
    run, ok := [], true;
    var k := 0;
    while k < |stmts|
      invariant 0 <= k <= |stmts|
      invariant Attempt(stmts[..k], fails) == (run, true)
    {
      AttemptStep(stmts, k, fails);
      var s := Text.Strip(stmts[k]);
      if s == [] {
      } else if IsDelimiterCommand(s) {
      } else {
        run := run + [s];
        if fails(s) {
          AttemptStops(stmts, k + 1, fails);
          AttemptOutcome(stmts, fails);
          return run, false;
        }
      }
      k := k + 1;
    }
    assert stmts[..k] == stmts;
    AttemptOutcome(stmts, fails);
  }

  /** What the loop has sent after the statements `stmts`, and whether none
      of them was rejected; once one is rejected nothing more is sent. */
  function Attempt(stmts: seq<string>, fails: string -> bool): (seq<string>, bool)
  {
    if stmts == [] then ([], true)
    else
      var (run, ok) := Attempt(stmts[..|stmts| - 1], fails);
      var s := Text.Strip(stmts[|stmts| - 1]);
      if !ok || s == [] || IsDelimiterCommand(s) then (run, ok)
      else (run + [s], !fails(s))
  }

  /** One more statement, while none has been rejected. */
  lemma AttemptStep(stmts: seq<string>, k: nat, fails: string -> bool)
    requires k < |stmts| && Attempt(stmts[..k], fails).1
    ensures var s := Text.Strip(stmts[k]); var (run, _) := Attempt(stmts[..k], fails);
            Attempt(stmts[..k + 1], fails) ==
              if s == [] || IsDelimiterCommand(s) then (run, true) else (run + [s], !fails(s))
  {
    assert stmts[..k + 1][..k] == stmts[..k];
  }

  /** After a rejected statement the later statements change nothing. */
  lemma {:induction false} AttemptStops(stmts: seq<string>, k: nat, fails: string -> bool)
    requires k <= |stmts| && !Attempt(stmts[..k], fails).1
    ensures Attempt(stmts, fails) == Attempt(stmts[..k], fails)
    decreases |stmts| - k
  {
    if k < |stmts| {
      assert stmts[..k + 1][..k] == stmts[..k];
      AttemptStops(stmts, k + 1, fails);
    } else {
      assert stmts[..k] == stmts;
    }
  }

  /** What the loop sends is the statements `Executed` lists, up to and
      including the first one the server rejects; it sends them all exactly
      when none is rejected. */
  lemma AttemptOutcome(stmts: seq<string>, fails: string -> bool)
    ensures var (run, ok) := Attempt(stmts, fails);
            && run <= Executed(stmts)
            && (forall i :: 0 <= i < |run| - 1 ==> !fails(run[i]))
            && (ok ==> run == Executed(stmts) && forall i :: 0 <= i < |run| ==> !fails(run[i]))
            && (!ok ==> run != [] && fails(run[|run| - 1]))
            && (ok <==> forall i :: 0 <= i < |Executed(stmts)| ==> !fails(Executed(stmts)[i]))
  {
    var (run, ok) := Attempt(stmts, fails);
    AttemptSent(stmts, fails);
    assert SentOf(run, ok, Executed(stmts), fails);
    if ok {
      NoneFailsAll(run, fails);
    } else {
      NoneFailsAll(run[..|run| - 1], fails);
      assert forall i :: 0 <= i < |run| - 1 ==> run[i] == run[..|run| - 1][i];
      assert Executed(stmts)[|run| - 1] == run[|run| - 1];
    }
  }

  /** `run` is what was sent when `all` was to be sent: all of it with none
      rejected, or a prefix of it whose last statement alone was rejected. */
  predicate SentOf(run: seq<string>, ok: bool, all: seq<string>, fails: string -> bool) {
    && (ok ==> run == all && NoneFails(run, fails))
    && (!ok ==> run != [] && run <= all && fails(run[|run| - 1]) && NoneFails(run[..|run| - 1], fails))
  }

  /** `Attempt` sends what `SentOf` describes for the statements `Executed`
      lists. */
  lemma {:induction false} AttemptSent(stmts: seq<string>, fails: string -> bool)
    ensures SentOf(Attempt(stmts, fails).0, Attempt(stmts, fails).1, Executed(stmts), fails)
    decreases |stmts|
  {
    if stmts != [] {
      var init := stmts[..|stmts| - 1];
      AttemptSent(init, fails);
      var (run, ok) := Attempt(init, fails);
      var s := Text.Strip(stmts[|stmts| - 1]);
      var more := if s == [] || IsDelimiterCommand(s) then [] else [s];
      assert Attempt(stmts, fails) == if !ok || more == [] then (run, ok) else (run + more, !fails(more[0]));
      assert Executed(stmts) == Executed(init) + more;
      SentStep(run, ok, Executed(init), more, fails);
    }
  }

  /** Offering at most one more statement keeps `SentOf`: it is sent only
      while none has been rejected. */
  lemma SentStep(run: seq<string>, ok: bool, all: seq<string>, more: seq<string>, fails: string -> bool)
    requires SentOf(run, ok, all, fails) && |more| <= 1
    ensures var next := if !ok || more == [] then (run, ok) else (run + more, !fails(more[0]));
            SentOf(next.0, next.1, all + more, fails)
  {
    if !ok {
      PrefixGrows(run, all, more);
    } else if more != [] {
      assert (run + more)[..|run|] == run;
      if !fails(more[0]) {
        NoneFailsSnoc(run, more[0], fails);
        assert run + more == run + [more[0]];
      }
    }
  }

  /** A prefix of `xs` is a prefix of `xs` followed by more. */
  lemma PrefixGrows(p: seq<string>, xs: seq<string>, more: seq<string>)
    requires p <= xs
    ensures p <= xs + more
  {
    assert (xs + more)[..|p|] == xs[..|p|];
  }

  /** No statement of `xs` is rejected, checked from the last one back. */
  predicate NoneFails(xs: seq<string>, fails: string -> bool) {
    xs == [] || (NoneFails(xs[..|xs| - 1], fails) && !fails(xs[|xs| - 1]))
  }

  lemma NoneFailsSnoc(xs: seq<string>, s: string, fails: string -> bool)
    requires NoneFails(xs, fails) && !fails(s)
    ensures NoneFails(xs + [s], fails)
  {
    assert (xs + [s])[..|xs|] == xs;
  }

  /** `NoneFails` says of every element that it is not rejected. */
  lemma {:induction false} NoneFailsAll(xs: seq<string>, fails: string -> bool)
    ensures NoneFails(xs, fails) <==> forall i :: 0 <= i < |xs| ==> !fails(xs[i])
    decreases |xs|
  {
    if xs != [] {
      var init := xs[..|xs| - 1];
      NoneFailsAll(init, fails);
      assert forall i :: 0 <= i < |init| ==> xs[i] == init[i];
    }
  }

  /** A statement is a `delimiter` command exactly when its first ten
      characters spell `delimiter ` in lower or upper case, letter by
      letter. */
  lemma DelimiterCommandIff(s: string)
    ensures IsDelimiterCommand(s) <==>
      |s| >= 10 && forall i :: 0 <= i < 10 ==> s[i] == "delimiter "[i] || s[i] == "DELIMITER "[i]
  {
    var r := Text.AsciiLowerString(s);
    if |s| >= 10 {
      forall i | 0 <= i < 10
        ensures r[i] == "delimiter "[i] <==> s[i] == "delimiter "[i] || s[i] == "DELIMITER "[i]
      {
        LowerMatches(s[i], "delimiter "[i], "DELIMITER "[i]);
      }
      assert IsDelimiterCommand(s) <==> forall i :: 0 <= i < 10 ==> r[i] == "delimiter "[i];
    }
  }

  /** A character lowers to `lo` exactly when it is `lo` or its upper-case
      form `up`, for a lower-case letter or a space. */
  lemma LowerMatches(c: char, lo: char, up: char)
    requires ('a' <= lo <= 'z' && up as int == lo as int - 32) || (lo == ' ' && up == ' ')
    ensures Text.AsciiLower(c) == lo <==> c == lo || c == up
  {
  }

  /** The split statements that are not `delimiter` commands, in order. */
  function Kept(stmts: seq<string>): seq<string> {
    if stmts == [] then []
    else Kept(stmts[..|stmts| - 1]) + (if IsDelimiterCommand(stmts[|stmts| - 1]) then [] else [stmts[|stmts| - 1]])
  }

  /** On statements that are already trimmed and non-empty, which the
      splitter guarantees, `main` runs exactly the non-`delimiter` ones,
      unchanged. */
  lemma {:induction false} ExecutedIsKept(stmts: seq<string>)
    requires forall j :: 0 <= j < |stmts| ==> stmts[j] != [] && Trimmed(stmts[j])
    ensures Executed(stmts) == Kept(stmts)
  {
    if stmts != [] {
      var init := stmts[..|stmts| - 1];
      var last := stmts[|stmts| - 1];
      forall j | 0 <= j < |init| ensures init[j] != [] && Trimmed(init[j]) {
        assert init[j] == stmts[j];
      }
      ExecutedIsKept(init);
      Text.TrimFixed(last, Text.Whitespace);
      assert Executed(stmts) == Executed(init) + (if IsDelimiterCommand(last) then [] else [last]);
    }
  }

  /** A statement is kept exactly when it is split out and is not a
      `delimiter` command. */
  lemma {:induction false} KeptMembers(stmts: seq<string>)
    ensures forall s :: s in Kept(stmts) <==> s in stmts && !IsDelimiterCommand(s)
  {
    if stmts != [] {
      var init := stmts[..|stmts| - 1];
      KeptMembers(init);
      assert stmts == init + [stmts[|stmts| - 1]];
    }
  }

  /** What the bootstrap sends to the server: every statement of the split
      script except the `delimiter` commands. */
  lemma SchemaRunsSplitStatements(sql: string)
    ensures forall s :: s in Executed(SplitSpec(sql)) <==> s in SplitSpec(sql) && !IsDelimiterCommand(s)
  {
    SplitShape(sql);
    ExecutedIsKept(SplitSpec(sql));
    KeptMembers(SplitSpec(sql));
  }
}
