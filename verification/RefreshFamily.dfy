/** The tokens descended from one authorization code. Answers never outnumber wins; and in a family none of
    whose tokens was won twice there is at most one live holder and the tokens grow as a chain. */
module RefreshFamily {
  import opened Text
  import opened Tokens
  import opened Provider
  import opened ProviderInvariant
  import opened SingleUse

  // ---- Wins, answers and requests in between ------------------------------------

  predicate IsAnswer(e: Event, t: string) { e.Response? && e.request.token == t }

  function WinCount(log: seq<Event>, t: string): nat {
    if log == [] then 0
    else WinCount(log[..|log| - 1], t) + if IsWin(log[|log| - 1], t) then 1 else 0
  }

  function AnswerCount(log: seq<Event>, t: string): nat {
    if log == [] then 0
    else AnswerCount(log[..|log| - 1], t) + if IsAnswer(log[|log| - 1], t) then 1 else 0
  }

  /** Requests that have consumed `t` and not yet answered. */
  function HeldBy(s: State, t: string): set<nat> {
    set id | id in s.pending && s.pending[id].stage.Used? && s.pending[id].token == t
  }

  /** Each answer and each request about to answer stands for a win of its own. */
  ghost predicate Counted(s: State, t: string) {
    AnswerCount(s.log, t) + |HeldBy(s, t)| <= WinCount(s.log, t)
  }

  ghost predicate CountInv(s: State) { forall t :: Counted(s, t) }

  ghost predicate OnceWon(log: seq<Event>, t: string) {
    forall i, j {:trigger log[i], log[j]} :: 0 <= i < j < |log| && IsWin(log[i], t) ==> !IsWin(log[j], t)
  }

  /** No consume step of this token won at or after its expiry. */
  ghost predicate TimelyToken(log: seq<Event>, t: string) {
    forall i :: 0 <= i < |log| && IsWin(log[i], t) ==> log[i].at < log[i].exp
  }

  lemma {:induction false} WinsPositive(log: seq<Event>, t: string)
    ensures WinCount(log, t) > 0 <==> Won(log, t)
  {
    if log != [] {
      var n := |log| - 1;
      WinsPositive(log[..n], t);
      if Won(log[..n], t) {
        var i :| 0 <= i < n && IsWin(log[..n][i], t);
        assert IsWin(log[i], t);
      }
      if Won(log, t) && !IsWin(log[n], t) {
        var i :| 0 <= i < |log| && IsWin(log[i], t);
        assert IsWin(log[..n][i], t);
      }
    }
  }

  lemma {:induction false} OnceWonCounts(log: seq<Event>, t: string)
    requires OnceWon(log, t)
    ensures WinCount(log, t) <= 1
  {
    if log != [] {
      var n := |log| - 1;
      assert forall i :: 0 <= i < n ==> log[..n][i] == log[i];
      OnceWonCounts(log[..n], t);
      if IsWin(log[n], t) {
        WinsPositive(log[..n], t);
        forall i | 0 <= i < n ensures !IsWin(log[..n][i], t) { assert log[..n][i] == log[i]; }
      }
    }
  }

  lemma {:induction false} TwoAnswersCount(log: seq<Event>, t: string, i: nat, j: nat)
    requires i < |log| && j < |log| && IsAnswer(log[i], t) && IsAnswer(log[j], t)
    ensures AnswerCount(log, t) >= if i == j then 1 else 2
  {
    var n := |log| - 1;
    if i < n && j < n {
      TwoAnswersCount(log[..n], t, i, j);
    } else if i < n {
      TwoAnswersCount(log[..n], t, i, i);
    } else if j < n {
      TwoAnswersCount(log[..n], t, j, j);
    }
  }

  lemma CountSnoc(log: seq<Event>, e: Event, t: string)
    ensures WinCount(log + [e], t) == WinCount(log, t) + if IsWin(e, t) then 1 else 0
    ensures AnswerCount(log + [e], t) == AnswerCount(log, t) + if IsAnswer(e, t) then 1 else 0
  {
    assert (log + [e])[..|log|] == log;
  }

  // ---- Holders ---------------------------------------------------------------------

  /** What can still turn into tokens: an unconsumed code or refresh token, or a request that has
      consumed one and not yet answered. */
  datatype Holder = Token(token: string) | Request(id: nat)

  ghost predicate Holds(s: State, h: Holder) {
    match h
    case Token(t) => t in s.minted && Spendable(PayloadOf(s, t)) && !Won(s.log, t)
    case Request(id) => id in s.pending && s.pending[id].stage.Used? && s.pending[id].token in s.minted
  }

  function FamilyOf(s: State, h: Holder): Option<string> {
    match h
    case Token(t) => if t in s.minted then s.minted[t].family else None
    case Request(id) =>
      if id in s.pending && s.pending[id].token in s.minted then s.minted[s.pending[id].token].family else None
  }

  ghost predicate FamilyOnce(s: State, family: Option<string>) {
    forall t {:trigger OnceWon(s.log, t)} :: t in s.minted && s.minted[t].family == family ==> OnceWon(s.log, t)
  }

  /** A family none of whose tokens was won twice has one holder. */
  ghost predicate OneHolder(s: State) {
    forall h1, h2 {:trigger Holds(s, h1), Holds(s, h2)} ::
      Holds(s, h1) && Holds(s, h2) && FamilyOf(s, h1) == FamilyOf(s, h2) && FamilyOnce(s, FamilyOf(s, h1)) ==> h1 == h2
  }

  /** Families are named by minted codes. */
  ghost predicate FamiliesMinted(s: State) {
    forall t {:trigger s.minted[t]} :: t in s.minted && s.minted[t].family.Some? ==>
      s.minted[t].family.value in s.minted
  }

  /** Every refresh token is the one named in the answer to its parent. */
  ghost predicate ChildrenAnswered(s: State) {
    forall t {:trigger s.minted[t]} :: t in s.minted && PayloadOf(s, t).Refresh? ==> ChildOf(s, t)
  }

  ghost predicate IsBirth(e: Event, parent: Option<string>, t: string) {
    e.Response? && Some(e.request.token) == parent && e.refresh == Some(t)
  }

  ghost predicate ChildOf(s: State, t: string)
    requires t in s.minted
  {
    exists i :: 0 <= i < |s.log| && IsBirth(s.log[i], s.minted[t].parent, t)
  }

  /** A path of parent links from a code down to `t`, all of one family. */
  ghost predicate PathTo(s: State, path: seq<string>, t: string) {
    && path != [] && path[|path| - 1] == t
    && (forall i :: 0 <= i < |path| ==> path[i] in s.minted && s.minted[path[i]].family == Some(path[0]))
    && PayloadOf(s, path[0]).Code?
    && (forall i :: 0 < i < |path| ==> PayloadOf(s, path[i]).Refresh? && s.minted[path[i]].parent == Some(path[i - 1]))
  }

  ghost predicate Rooted(s: State, t: string) { exists path :: PathTo(s, path, t) }

  ghost predicate AllRooted(s: State) {
    forall t {:trigger Rooted(s, t)} :: t in s.minted && Spendable(PayloadOf(s, t)) ==> Rooted(s, t)
  }

  ghost predicate FamilyInv(s: State) {
    OneHolder(s) && FamiliesMinted(s) && CountInv(s) && ChildrenAnswered(s) && AllRooted(s)
  }

  /** Requests in flight name minted codes and refresh tokens. */
  ghost predicate PendingMinted(s: State) {
    forall id :: id in s.pending ==> s.pending[id].token in s.minted && Spendable(PayloadOf(s, s.pending[id].token))
  }

  lemma InvPendingMinted(cfg: Config, s: State)
    requires Valid(cfg.codec) && Inv(cfg, s)
    ensures PendingMinted(s)
  {
    forall id | id in s.pending
      ensures s.pending[id].token in s.minted && Spendable(PayloadOf(s, s.pending[id].token))
    {
      assert PendingElem(cfg, s, s.pending[id]);
    }
  }

  // ---- What persists ------------------------------------------------------------------

  ghost predicate Grows(s: State, t: State) {
    && s.log <= t.log
    && forall k :: k in s.minted ==> k in t.minted && t.minted[k] == s.minted[k]
  }

  lemma WonGrows(before: seq<Event>, after: seq<Event>, t: string)
    requires before <= after
    ensures Won(before, t) ==> Won(after, t)
    ensures (forall i :: |before| <= i < |after| ==> !IsWin(after[i], t)) && Won(after, t) ==> Won(before, t)
  {
    if Won(before, t) {
      var i :| 0 <= i < |before| && IsWin(before[i], t);
      assert IsWin(after[i], t);
    }
    if (forall i :: |before| <= i < |after| ==> !IsWin(after[i], t)) && Won(after, t) {
      var i :| 0 <= i < |after| && IsWin(after[i], t);
      assert IsWin(before[i], t);
    }
  }

  lemma OnceWonShrinks(before: seq<Event>, after: seq<Event>, t: string)
    requires before <= after && OnceWon(after, t)
    ensures OnceWon(before, t)
  {
    forall i, j | 0 <= i < j < |before| && IsWin(before[i], t)
      ensures !IsWin(before[j], t)
    {
      assert after[i] == before[i] && after[j] == before[j];
    }
  }

  lemma FamilyOnceShrinks(s: State, t: State, family: Option<string>)
    requires Grows(s, t) && FamilyOnce(t, family)
    ensures FamilyOnce(s, family)
  {
    forall k | k in s.minted && s.minted[k].family == family
      ensures OnceWon(s.log, k)
    {
      assert OnceWon(t.log, k);
      OnceWonShrinks(s.log, t.log, k);
    }
  }

  lemma ChildGrows(s: State, t: State, k: string)
    requires ChildrenAnswered(s) && Grows(s, t) && k in s.minted && PayloadOf(s, k).Refresh?
    ensures ChildOf(t, k)
  {
    assert t.minted[k] == s.minted[k];
    var i :| 0 <= i < |s.log| && IsBirth(s.log[i], s.minted[k].parent, k);
    assert t.log[i] == s.log[i];
  }

  lemma RootedGrows(s: State, t: State, k: string)
    requires Grows(s, t) && Rooted(s, k)
    ensures Rooted(t, k)
  {
    var path :| PathTo(s, path, k);
    assert forall i :: 0 <= i < |path| ==> t.minted[path[i]] == s.minted[path[i]];
    assert PathTo(t, path, k);
  }

  // ---- Steps that neither consume nor answer -------------------------------

  /** Requests past consumption, spendable tokens, wins and answers are as before. */
  ghost predicate SameHolders(s: State, t: State) {
    && t.minted == s.minted
    && (t.log == s.log || (|t.log| == |s.log| + 1 && s.log <= t.log && t.log[|s.log|].Use? && !t.log[|s.log|].won))
    && (forall id :: id in t.pending && t.pending[id].stage.Used? ==> id in s.pending && s.pending[id] == t.pending[id])
  }

  lemma SameHoldersCounted(s: State, t: State, k: string)
    requires Counted(s, k) && SameHolders(s, t)
    ensures Counted(t, k)
  {
    if t.log != s.log {
      assert t.log == s.log + [t.log[|s.log|]];
      CountSnoc(s.log, t.log[|s.log|], k);
    }
    HeldShrinks(HeldBy(t, k), HeldBy(s, k));
  }

  lemma HeldShrinks(a: set<nat>, b: set<nat>)
    requires a <= b
    ensures |a| <= |b|
  {
    assert b == a + (b - a);
  }

  lemma SameHoldersOne(s: State, t: State)
    requires OneHolder(s) && SameHolders(s, t)
    ensures OneHolder(t)
  {
    forall h1, h2 | Holds(t, h1) && Holds(t, h2) && FamilyOf(t, h1) == FamilyOf(t, h2) && FamilyOnce(t, FamilyOf(t, h1))
      ensures h1 == h2
    {
      if h1.Token? { WonGrows(s.log, t.log, h1.token); }
      if h2.Token? { WonGrows(s.log, t.log, h2.token); }
      assert Holds(s, h1) && Holds(s, h2);
      FamilyOnceShrinks(s, t, FamilyOf(t, h1));
    }
  }

  /** Children and paths survive whenever no code or refresh token is new. */
  lemma OldTokensKeep(s: State, t: State)
    requires ChildrenAnswered(s) && AllRooted(s) && Grows(s, t) && t.minted == s.minted
    ensures ChildrenAnswered(t) && AllRooted(t)
  {
    forall k | k in t.minted && PayloadOf(t, k).Refresh? ensures ChildOf(t, k) { ChildGrows(s, t, k); }
    forall k | k in t.minted && Spendable(PayloadOf(t, k)) ensures Rooted(t, k) {
      assert Rooted(s, k);
      RootedGrows(s, t, k);
    }
  }

  lemma SameHoldersKeeps(s: State, t: State)
    requires FamilyInv(s) && SameHolders(s, t)
    ensures FamilyInv(t)
  {
    SameHoldersOne(s, t);
    forall k ensures Counted(t, k) {
      assert Counted(s, k);
      SameHoldersCounted(s, t, k);
    }
    OldTokensKeep(s, t);
  }

  // ---- Authorization and client credentials --------------------------------

  /** New tokens are access tokens or one code heading its own family. */
  ghost predicate NewRoots(s: State, t: State) {
    && t.pending == s.pending
    && (t.log == s.log || (|t.log| == |s.log| + 1 && s.log <= t.log && t.log[|s.log|].FrontChannel?))
    && (forall k :: k in s.minted ==> k in t.minted && t.minted[k] == s.minted[k])
    && (forall k :: k in t.minted && k !in s.minted ==>
          || (PayloadOf(t, k).Access? && t.minted[k].family.None?)
          || (PayloadOf(t, k).Code? && t.minted[k].family == Some(k)))
  }

  lemma NewRootHolder(s: State, t: State, h: Holder)
    requires PendingMinted(s) && FamiliesMinted(s) && NewRoots(s, t) && Holds(t, h)
    ensures || (Holds(s, h) && FamilyOf(t, h) == FamilyOf(s, h)
                && (FamilyOf(s, h).Some? ==> FamilyOf(s, h).value in s.minted))
            || (h.Token? && h.token !in s.minted && FamilyOf(t, h) == Some(h.token))
  {
    if h.Token? {
      WonGrows(s.log, t.log, h.token);
    }
  }

  lemma NewRootsOne(s: State, t: State)
    requires PendingMinted(s) && FamiliesMinted(s) && OneHolder(s) && NewRoots(s, t)
    ensures OneHolder(t)
  {
    forall h1, h2 | Holds(t, h1) && Holds(t, h2) && FamilyOf(t, h1) == FamilyOf(t, h2) && FamilyOnce(t, FamilyOf(t, h1))
      ensures h1 == h2
    {
      NewRootHolder(s, t, h1);
      NewRootHolder(s, t, h2);
      FamilyOnceShrinks(s, t, FamilyOf(t, h1));
      assert Holds(s, h1) && Holds(s, h2) ==> FamilyOf(s, h1) == FamilyOf(s, h2);
    }
  }

  lemma NewRootsRooted(s: State, t: State, k: string)
    requires AllRooted(s) && NewRoots(s, t) && k in t.minted && Spendable(PayloadOf(t, k))
    ensures Rooted(t, k)
  {
    if k in s.minted {
      assert Rooted(s, k);
      RootedGrows(s, t, k);
    } else {
      assert PathTo(t, [k], k);
    }
  }

  lemma NewRootsKeeps(s: State, t: State)
    requires PendingMinted(s) && FamilyInv(s) && NewRoots(s, t)
    ensures FamilyInv(t)
  {
    NewRootsOne(s, t);
    forall k ensures Counted(t, k) {
      assert Counted(s, k);
      assert HeldBy(t, k) == HeldBy(s, k);
      if t.log != s.log {
        assert t.log == s.log + [t.log[|s.log|]];
        CountSnoc(s.log, t.log[|s.log|], k);
      }
    }
    forall k | k in t.minted && PayloadOf(t, k).Refresh? ensures ChildOf(t, k) { ChildGrows(s, t, k); }
    forall k | k in t.minted && Spendable(PayloadOf(t, k)) ensures Rooted(t, k) { NewRootsRooted(s, t, k); }
  }

  // ---- Winning a consume step ------------------------------------------------

  /** Request `id` consumed its token. */
  ghost predicate Takes(s: State, t: State, id: nat) {
    && id in s.pending && !s.pending[id].stage.Used?
    && s.pending[id].token in s.minted && Spendable(PayloadOf(s, s.pending[id].token))
    && t.minted == s.minted
    && |t.log| == |s.log| + 1 && s.log <= t.log && IsWin(t.log[|s.log|], s.pending[id].token)
    && id in t.pending && t.pending[id].token == s.pending[id].token
    && (forall k :: k != id ==> (k in t.pending <==> k in s.pending))
    && (forall k :: k != id && k in s.pending ==> t.pending[k] == s.pending[k])
  }

  /** After the win the request holds what the token held. */
  lemma TakesHolder(s: State, t: State, id: nat, h: Holder)
    requires Takes(s, t, id) && Holds(t, h)
    ensures h == Request(id) ==> FamilyOf(t, h) == FamilyOf(s, Token(s.pending[id].token))
    ensures h != Request(id) ==> h != Token(s.pending[id].token) && Holds(s, h) && FamilyOf(t, h) == FamilyOf(s, h)
  {
    if h.Token? {
      WonGrows(s.log, t.log, h.token);
      assert Won(t.log, s.pending[id].token);
    }
  }

  /** If the token is won once, it was not won before. */
  lemma FirstWin(s: State, t: State, id: nat)
    requires Takes(s, t, id) && OnceWon(t.log, s.pending[id].token)
    ensures Holds(s, Token(s.pending[id].token))
  {
    var x := s.pending[id].token;
    forall i | 0 <= i < |s.log| ensures !IsWin(s.log[i], x) { assert t.log[i] == s.log[i]; }
  }

  lemma TakesOne(s: State, t: State, id: nat)
    requires OneHolder(s) && Takes(s, t, id)
    ensures OneHolder(t)
  {
    var x := s.pending[id].token;
    forall h1, h2 | Holds(t, h1) && Holds(t, h2) && FamilyOf(t, h1) == FamilyOf(t, h2) && FamilyOnce(t, FamilyOf(t, h1))
      ensures h1 == h2
    {
      TakesHolder(s, t, id, h1);
      TakesHolder(s, t, id, h2);
      FamilyOnceShrinks(s, t, FamilyOf(t, h1));
      if h1 == Request(id) || h2 == Request(id) {
        assert OnceWon(t.log, x);
        FirstWin(s, t, id);
      }
    }
  }

  lemma TakesCounted(s: State, t: State, id: nat, k: string)
    requires Counted(s, k) && Takes(s, t, id)
    ensures Counted(t, k)
  {
    assert t.log == s.log + [t.log[|s.log|]];
    CountSnoc(s.log, t.log[|s.log|], k);
    if k == s.pending[id].token {
      HeldShrinks(HeldBy(t, k), HeldBy(s, k) + {id});
    } else {
      HeldShrinks(HeldBy(t, k), HeldBy(s, k));
    }
  }

  lemma TakesKeepsFamily(s: State, t: State, id: nat)
    requires FamilyInv(s) && Takes(s, t, id)
    ensures FamilyInv(t)
  {
    TakesOne(s, t, id);
    forall k ensures Counted(t, k) {
      assert Counted(s, k);
      TakesCounted(s, t, id, k);
    }
    OldTokensKeep(s, t);
  }

  // ---- Answering -------------------------------------------------------------

  /** Request `id` was answered with an access token and, perhaps, the next refresh token. */
  ghost predicate Answers(s: State, t: State, id: nat, refresh: Option<string>) {
    && id in s.pending && s.pending[id].stage.Used? && s.pending[id].token in s.minted
    && t.pending == s.pending - {id}
    && |t.log| == |s.log| + 1 && s.log <= t.log
    && t.log[|s.log|].Response? && t.log[|s.log|].request == s.pending[id] && t.log[|s.log|].refresh == refresh
    && (forall k :: k in s.minted ==> k in t.minted && t.minted[k] == s.minted[k])
    && (forall k :: k in t.minted && k !in s.minted ==>
          && t.minted[k].family == s.minted[s.pending[id].token].family
          && t.minted[k].parent == Some(s.pending[id].token)
          && (PayloadOf(t, k).Access? || (PayloadOf(t, k).Refresh? && refresh == Some(k))))
    && (refresh.Some? ==> refresh.value !in s.minted)
  }

  lemma AnswersHolder(s: State, t: State, id: nat, refresh: Option<string>, h: Holder)
    requires PendingMinted(s) && Answers(s, t, id, refresh) && Holds(t, h)
    ensures h.Token? && refresh == Some(h.token) ==> FamilyOf(t, h) == FamilyOf(s, Request(id))
    ensures !(h.Token? && refresh == Some(h.token)) ==>
              h != Request(id) && Holds(s, h) && FamilyOf(t, h) == FamilyOf(s, h)
  {
    if h.Token? {
      WonGrows(s.log, t.log, h.token);
    }
  }

  lemma AnswersOne(s: State, t: State, id: nat, refresh: Option<string>)
    requires PendingMinted(s) && OneHolder(s) && Answers(s, t, id, refresh)
    ensures OneHolder(t)
  {
    assert Holds(s, Request(id));
    forall h1, h2 | Holds(t, h1) && Holds(t, h2) && FamilyOf(t, h1) == FamilyOf(t, h2) && FamilyOnce(t, FamilyOf(t, h1))
      ensures h1 == h2
    {
      AnswersHolder(s, t, id, refresh, h1);
      AnswersHolder(s, t, id, refresh, h2);
      FamilyOnceShrinks(s, t, FamilyOf(t, h1));
    }
  }

  lemma AnswersCounted(s: State, t: State, id: nat, refresh: Option<string>, k: string)
    requires Counted(s, k) && Answers(s, t, id, refresh)
    ensures Counted(t, k)
  {
    assert t.log == s.log + [t.log[|s.log|]];
    CountSnoc(s.log, t.log[|s.log|], k);
    if k == s.pending[id].token {
      assert HeldBy(t, k) == HeldBy(s, k) - {id} && id in HeldBy(s, k);
    } else {
      assert HeldBy(t, k) == HeldBy(s, k);
    }
  }

  lemma AnswersChild(s: State, t: State, id: nat, refresh: Option<string>, k: string)
    requires ChildrenAnswered(s) && Answers(s, t, id, refresh) && k in t.minted && PayloadOf(t, k).Refresh?
    ensures ChildOf(t, k)
  {
    if k in s.minted {
      ChildGrows(s, t, k);
    } else {
      assert IsBirth(t.log[|s.log|], t.minted[k].parent, k);
    }
  }

  lemma PathLonger(t: State, path: seq<string>, x: string, k: string)
    requires PathTo(t, path, x) && k in t.minted && PayloadOf(t, k).Refresh?
    requires t.minted[k].parent == Some(x) && t.minted[k].family == t.minted[x].family
    ensures PathTo(t, path + [k], k)
  {
  }

  lemma AnswersRooted(s: State, t: State, id: nat, refresh: Option<string>, k: string)
    requires PendingMinted(s) && AllRooted(s) && Answers(s, t, id, refresh) && k in t.minted
             && Spendable(PayloadOf(t, k))
    ensures Rooted(t, k)
  {
    if k in s.minted {
      assert Rooted(s, k);
      RootedGrows(s, t, k);
    } else {
      var x := s.pending[id].token;
      assert Rooted(s, x);
      RootedGrows(s, t, x);
      var path :| PathTo(t, path, x);
      PathLonger(t, path, x, k);
    }
  }

  lemma AnswersFamilies(s: State, t: State, id: nat, refresh: Option<string>)
    requires FamiliesMinted(s) && Answers(s, t, id, refresh)
    ensures FamiliesMinted(t)
  {
    var x := s.pending[id].token;
    assert s.minted[x].family.Some? ==> s.minted[x].family.value in s.minted;
  }

  lemma AnswersKeepsFamily(s: State, t: State, id: nat, refresh: Option<string>)
    requires PendingMinted(s) && FamilyInv(s) && Answers(s, t, id, refresh)
    ensures FamilyInv(t)
  {
    AnswersOne(s, t, id, refresh);
    AnswersFamilies(s, t, id, refresh);
    forall k ensures Counted(t, k) {
      assert Counted(s, k);
      AnswersCounted(s, t, id, refresh, k);
    }
    forall k | k in t.minted && PayloadOf(t, k).Refresh? ensures ChildOf(t, k) { AnswersChild(s, t, id, refresh, k); }
    forall k | k in t.minted && Spendable(PayloadOf(t, k)) ensures Rooted(t, k) { AnswersRooted(s, t, id, refresh, k); }
  }

  // ---- Runs --------------------------------------------------------------------

  lemma WinTakes(cfg: Config, s: State, id: nat)
    requires Valid(cfg.codec) && PendingMinted(s) && Consumes(s, id) && Wins(cfg, s, id)
    ensures Takes(s, ConsumeStep(cfg, s, id), id)
  {
  }

  lemma FinishAnswers(cfg: Config, s: State, a: Action)
    requires Valid(cfg.codec) && Finishes(s, a)
    ensures Answers(s, FinishStep(cfg, s, a), a.id, if IssuesRefresh(s.pending[a.id]) then Some(a.refresh) else None)
  {
  }

  lemma AuthorizeRoots(cfg: Config, s: State, a: Action)
    requires Valid(cfg.codec) && a.Authorize?
    ensures NewRoots(s, AuthorizeStep(cfg, s, a))
  {
  }

  lemma ServiceRoots(cfg: Config, s: State, a: Action)
    requires Valid(cfg.codec) && a.ClientCredentials?
    ensures NewRoots(s, ClientCredentialsStep(cfg, s, a))
  {
  }

  lemma QuietSteps(cfg: Config, s: State, a: Action)
    requires Valid(cfg.codec) && !a.Authorize? && !a.ClientCredentials? && !Finishes(s, a)
    requires !(a.Consume? && Consumes(s, a.id) && Wins(cfg, s, a.id))
    ensures SameHolders(s, Step(cfg, s, a))
  {
  }

  lemma StepKeepsFamily(cfg: Config, s: State, a: Action)
    requires Valid(cfg.codec) && Inv(cfg, s) && FamilyInv(s)
    ensures FamilyInv(Step(cfg, s, a))
  {
    var t := Step(cfg, s, a);
    InvPendingMinted(cfg, s);
    if a.Consume? && Consumes(s, a.id) && Wins(cfg, s, a.id) {
      WinTakes(cfg, s, a.id);
      TakesKeepsFamily(s, t, a.id);
    } else if Finishes(s, a) {
      var refresh := if IssuesRefresh(s.pending[a.id]) then Some(a.refresh) else None;
      FinishAnswers(cfg, s, a);
      AnswersKeepsFamily(s, t, a.id, refresh);
    } else if a.Authorize? {
      AuthorizeRoots(cfg, s, a);
      NewRootsKeeps(s, t);
    } else if a.ClientCredentials? {
      ServiceRoots(cfg, s, a);
      NewRootsKeeps(s, t);
    } else {
      QuietSteps(cfg, s, a);
      SameHoldersKeeps(s, t);
    }
  }

  /** Every run, timely or not, keeps the family invariant. */
  lemma {:induction false} RunKeepsFamily(cfg: Config, actions: seq<Action>)
    requires Valid(cfg.codec)
    ensures FamilyInv(Run(cfg, actions))
  {
    if actions != [] {
      var n := |actions| - 1;
      RunKeepsFamily(cfg, actions[..n]);
      RunKeeps(cfg, actions[..n]);
      StepKeepsFamily(cfg, Run(cfg, actions[..n]), actions[n]);
    }
  }

  /** A token all of whose wins came before its expiry was won at most once. */
  lemma TimelyWonOnce(cfg: Config, actions: seq<Action>, t: string)
    requires ValidConfig(cfg) && TimelyToken(Run(cfg, actions).log, t)
    ensures OnceWon(Run(cfg, actions).log, t)
  {
    var log := Run(cfg, actions).log;
    forall i, j | 0 <= i < j < |log| && IsWin(log[i], t)
      ensures !IsWin(log[j], t)
    {
      if IsWin(log[j], t) { AtMostOneWinBeforeExpiry(cfg, actions, i, j); }
    }
  }
}
