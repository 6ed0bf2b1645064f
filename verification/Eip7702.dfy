/** The EIP-7702 authorization list of a set-code transaction (src/evm/handler.rs). */
module Eip7702 {
  import opened Chain

  type Address = nat

  const U64_MAX: nat := 0xFFFF_FFFF_FFFF_FFFF
  type u64 = n: int | 0 <= n <= U64_MAX
  const PER_EMPTY_ACCOUNT_COST: nat := 25_000
  const PER_AUTH_BASE_COST: nat := 12_500
  const ZERO_ADDRESS: Address := 0

  datatype Code = Empty | Delegation(target: Address) | Contract(code: nat)

  /** `notExisting` and `touched` are the journal's load and touch marks. */
  datatype Account = Account(nonce: nat, balance: nat, code: Code, notExisting: bool, touched: bool)

  /** What a load finds for an address outside the state. */
  const ABSENT := Account(0, 0, Empty, true, false)

  type State = map<Address, Account>

  function Load(s: State, a: Address): Account {
    if a in s then s[a] else ABSENT
  }

  /** `authority` is the recovered signer, absent when recovery fails. */
  datatype Authorization = Authorization(chainId: nat, address: Address, nonce: u64, authority: Option<Address>)

  datatype Config = Config(chainId: nat, blacklist: set<Address>)

  predicate IsEmptyAccount(acc: Account) {
    acc.nonce == 0 && acc.balance == 0 && acc.code.Empty?
  }

  /** The account was not in the trie and nothing has touched it since. */
  predicate IsNew(acc: Account) {
    IsEmptyAccount(acc) && acc.notExisting && !acc.touched
  }

  /** The checks that read only the authorization. */
  predicate Eligible(cfg: Config, auth: Authorization) {
    && (auth.chainId == 0 || auth.chainId == cfg.chainId)
    && auth.nonce != U64_MAX
    && auth.authority.Some?
    && auth.authority.value !in cfg.blacklist
  }

  predicate Accepts(cfg: Config, s: State, auth: Authorization) {
    && Eligible(cfg, auth)
    && !Load(s, auth.authority.value).code.Contract?
    && auth.nonce == Load(s, auth.authority.value).nonce
  }

  function DelegationTo(address: Address): Code {
    if address == ZERO_ADDRESS then Empty else Delegation(address)
  }

  function Delegated(acc: Account, address: Address): Account {
    acc.(nonce := acc.nonce + 1, code := DelegationTo(address), touched := true)
  }

  function Applied(cfg: Config, s: State, auth: Authorization): State {
    if Accepts(cfg, s, auth) then
      s[auth.authority.value := Delegated(Load(s, auth.authority.value), auth.address)]
    else s
  }

  function AppliedAll(cfg: Config, s: State, auths: seq<Authorization>): State {
    if |auths| == 0 then s
    else Applied(cfg, AppliedAll(cfg, s, auths[..|auths| - 1]), auths[|auths| - 1])
  }

  function RefundOf(cfg: Config, s: State, auth: Authorization): nat {
    if Accepts(cfg, s, auth) && !IsNew(Load(s, auth.authority.value)) then 1 else 0
  }

  function Refunds(cfg: Config, s: State, auths: seq<Authorization>): nat {
    if |auths| == 0 then 0
    else
      var init := auths[..|auths| - 1];
      Refunds(cfg, s, init) + RefundOf(cfg, AppliedAll(cfg, s, init), auths[|auths| - 1])
  }

  class Journal {
    var accounts: State

    /** Applies the list entry by entry and returns the refunded gas. */
    method ApplyAuthList(isSetCode: bool, cfg: Config, auths: seq<Authorization>) returns (refund: nat)
      modifies this
      ensures !isSetCode ==> accounts == old(accounts) && refund == 0
      ensures isSetCode ==>
                && accounts == AppliedAll(cfg, old(accounts), auths)
                && refund == 12_500 * Refunds(cfg, old(accounts), auths)
    {
      if !isSetCode {
        return 0;
      }
      var refunded := 0;
      for i := 0 to |auths|
        invariant accounts == AppliedAll(cfg, old(accounts), auths[..i])
        invariant refunded == Refunds(cfg, old(accounts), auths[..i])
      {
        assert auths[..i + 1][..i] == auths[..i];
        var auth := auths[i];
        if auth.chainId != 0 && auth.chainId != cfg.chainId {
          continue;
        }
        if auth.nonce == U64_MAX {
          continue;
        }
        if auth.authority.None? {
          continue;
        }
        var authority := auth.authority.value;
        if authority in cfg.blacklist {
          continue;
        }
        var acc := Load(accounts, authority);
        if !acc.code.Empty? && !acc.code.Delegation? {
          continue;
        }
        if auth.nonce != acc.nonce {
          continue;
        }
        if !(IsEmptyAccount(acc) && acc.notExisting && !acc.touched) {
          refunded := refunded + 1;
        }
        var code := if auth.address == ZERO_ADDRESS then Empty else Delegation(auth.address);
        accounts := accounts[authority := acc.(code := code, nonce := acc.nonce + 1, touched := true)];
      }
      assert auths[..|auths|] == auths;
      refund := refunded * (PER_EMPTY_ACCOUNT_COST - PER_AUTH_BASE_COST);
    }
  }

  // ----- what a list does to one authority -----

  /** The entry at `i` is accepted when its turn comes. */
  predicate AcceptedAt(cfg: Config, s: State, auths: seq<Authorization>, i: nat)
    requires i < |auths|
  {
    Accepts(cfg, AppliedAll(cfg, s, auths[..i]), auths[i])
  }

  /** Accepted entries signed by `a`. */
  function Count(cfg: Config, s: State, auths: seq<Authorization>, a: Address): nat {
    if |auths| == 0 then 0
    else
      var init, last := auths[..|auths| - 1], auths[|auths| - 1];
      Count(cfg, s, init, a) +
      (if Accepts(cfg, AppliedAll(cfg, s, init), last) && last.authority == Some(a) then 1 else 0)
  }

  /** The address of the last accepted entry signed by `a`. */
  function LastDelegate(cfg: Config, s: State, auths: seq<Authorization>, a: Address): Option<Address> {
    if |auths| == 0 then None
    else
      var init, last := auths[..|auths| - 1], auths[|auths| - 1];
      if Accepts(cfg, AppliedAll(cfg, s, init), last) && last.authority == Some(a) then Some(last.address)
      else LastDelegate(cfg, s, init, a)
  }

  /** The account of every address after a list: its nonce rises by its accepted entries, its
      code is the last accepted delegation, and nothing else changes. */
  lemma {:induction false} FinalAccount(cfg: Config, s: State, auths: seq<Authorization>, a: Address)
    ensures var before, after := Load(s, a), Load(AppliedAll(cfg, s, auths), a);
            var count, last := Count(cfg, s, auths, a), LastDelegate(cfg, s, auths, a);
            && after == before.(nonce := before.nonce + count,
                                code := if last.None? then before.code
                                        else if last.value == 0 then Empty else Delegation(last.value),
                                touched := before.touched || count > 0)
            && (count == 0 <==> last.None?)
            && (count > 0 ==> !before.code.Contract? && a !in cfg.blacklist)
            && (after.code.Contract? <==> before.code.Contract?)
  {
    if |auths| > 0 {
      FinalAccount(cfg, s, auths[..|auths| - 1], a);
    }
  }

  /** Blacklisted and contract authorities, and those without an accepted entry, keep their
      account; the others do not. */
  lemma UnchangedExactly(cfg: Config, s: State, auths: seq<Authorization>, a: Address)
    ensures Load(AppliedAll(cfg, s, auths), a) == Load(s, a) <==> Count(cfg, s, auths, a) == 0
    ensures a in cfg.blacklist || Load(s, a).code.Contract? ==> Count(cfg, s, auths, a) == 0
  {
    FinalAccount(cfg, s, auths, a);
  }

  lemma {:induction false} CountPrefix(cfg: Config, s: State, auths: seq<Authorization>, a: Address, i: nat)
    requires i <= |auths|
    ensures Count(cfg, s, auths[..i], a) <= Count(cfg, s, auths, a)
  {
    if i < |auths| {
      var init := auths[..|auths| - 1];
      CountPrefix(cfg, s, init, a, i);
      assert init[..i] == auths[..i];
    } else {
      assert auths[..i] == auths;
    }
  }

  /** Acceptance read off the initial state alone: an entry is accepted exactly when it is for
      this chain or any chain, its nonce is below 2^64 - 1, its signer is recovered and not
      blacklisted, the signer has no contract code, and the nonce is the signer's initial one
      plus the number of its entries accepted before. */
  lemma AcceptedExactly(cfg: Config, s: State, auths: seq<Authorization>, i: nat)
    requires i < |auths|
    ensures var auth := auths[i];
            AcceptedAt(cfg, s, auths, i) <==>
            && (auth.chainId == 0 || auth.chainId == cfg.chainId)
            && auth.nonce < 0xFFFF_FFFF_FFFF_FFFF
            && auth.authority.Some? && auth.authority.value !in cfg.blacklist
            && !Load(s, auth.authority.value).code.Contract?
            && auth.nonce == Load(s, auth.authority.value).nonce + Count(cfg, s, auths[..i], auth.authority.value)
  {
    if auths[i].authority.Some? {
      FinalAccount(cfg, s, auths[..i], auths[i].authority.value);
    }
  }

  /** Entries for other chains change no account and refund nothing. */
  lemma {:induction false} OtherChainsChangeNothing(cfg: Config, s: State, auths: seq<Authorization>)
    requires forall i :: 0 <= i < |auths| ==> auths[i].chainId != 0 && auths[i].chainId != cfg.chainId
    ensures AppliedAll(cfg, s, auths) == s && Refunds(cfg, s, auths) == 0
  {
    if |auths| > 0 {
      OtherChainsChangeNothing(cfg, s, auths[..|auths| - 1]);
    }
  }

  /** No authority has a nonce accepted twice: accepted nonces rise along the list. */
  lemma AcceptedNoncesRise(cfg: Config, s: State, auths: seq<Authorization>, i: nat, j: nat)
    requires i < j < |auths|
    requires AcceptedAt(cfg, s, auths, i) && AcceptedAt(cfg, s, auths, j)
    requires auths[i].authority == auths[j].authority
    ensures auths[i].nonce < auths[j].nonce
  {
    var a := auths[i].authority.value;
    AcceptedExactly(cfg, s, auths, i);
    AcceptedExactly(cfg, s, auths, j);
    var upTo := auths[..i + 1];
    assert upTo[..i] == auths[..i] && auths[..j][..i + 1] == upTo;
    CountPrefix(cfg, s, auths[..j], a, i + 1);
  }

  // ----- authorities do not interfere -----

  function SignedBy(auths: seq<Authorization>, a: Address): seq<Authorization> {
    if |auths| == 0 then []
    else
      var init, last := SignedBy(auths[..|auths| - 1], a), auths[|auths| - 1];
      if last.authority == Some(a) then init + [last] else init
  }

  /** An authority ends up as if the list held its entries only. */
  lemma {:induction false} AuthoritiesAreIndependent(cfg: Config, s: State, auths: seq<Authorization>, a: Address)
    ensures Load(AppliedAll(cfg, s, auths), a) == Load(AppliedAll(cfg, s, SignedBy(auths, a)), a)
  {
    if |auths| > 0 {
      var init, last := auths[..|auths| - 1], auths[|auths| - 1];
      AuthoritiesAreIndependent(cfg, s, init, a);
      var own := SignedBy(init, a);
      assert (own + [last])[..|own|] == own;
    }
  }

  // ----- the refund -----

  function Total(cfg: Config, s: State, auths: seq<Authorization>): nat {
    if |auths| == 0 then 0
    else
      var init := auths[..|auths| - 1];
      Total(cfg, s, init) + (if Accepts(cfg, AppliedAll(cfg, s, init), auths[|auths| - 1]) then 1 else 0)
  }

  function Signers(auths: seq<Authorization>): set<Address> {
    set i | 0 <= i < |auths| && auths[i].authority.Some? :: auths[i].authority.value
  }

  /** Neither in the trie nor touched: no nonce, no balance, no code. */
  predicate DidNotExist(acc: Account) {
    acc.notExisting && !acc.touched && acc.nonce == 0 && acc.balance == 0 && acc.code == Empty
  }

  /** Authorities that did not exist beforehand and had an entry accepted. */
  ghost function NewAuthorities(cfg: Config, s: State, auths: seq<Authorization>): set<Address> {
    set a | a in Signers(auths) && DidNotExist(Load(s, a)) && Count(cfg, s, auths, a) > 0
  }

  lemma {:induction false} CountedIsSigner(cfg: Config, s: State, auths: seq<Authorization>, a: Address)
    requires Count(cfg, s, auths, a) > 0
    ensures a in Signers(auths)
  {
    var init, last := auths[..|auths| - 1], auths[|auths| - 1];
    if last.authority != Some(a) {
      CountedIsSigner(cfg, s, init, a);
      var i :| 0 <= i < |init| && init[i].authority == Some(a);
      assert auths[i].authority == Some(a);
    } else {
      assert auths[|auths| - 1].authority == Some(a);
    }
  }

  lemma NewAuthoritiesStep(cfg: Config, s: State, init: seq<Authorization>, last: Authorization)
    ensures var auths := init + [last];
            var accepted := Accepts(cfg, AppliedAll(cfg, s, init), last);
            NewAuthorities(cfg, s, auths) ==
            NewAuthorities(cfg, s, init) +
            (if accepted && DidNotExist(Load(s, last.authority.value)) then {last.authority.value} else {})
  {
    hide Accepts, DidNotExist, Signers, AppliedAll;
    var auths := init + [last];
    assert auths[..|init|] == init;
    var accepted := Accepts(cfg, AppliedAll(cfg, s, init), last);
    AcceptedHasAuthority(cfg, s, init, last);
    var extra := if accepted && DidNotExist(Load(s, last.authority.value)) then {last.authority.value} else {};
    forall a: Address ensures a in NewAuthorities(cfg, s, auths) <==> a in NewAuthorities(cfg, s, init) + extra {
      if Count(cfg, s, auths, a) > 0 {
        CountedIsSigner(cfg, s, auths, a);
      }
      if Count(cfg, s, init, a) > 0 {
        CountedIsSigner(cfg, s, init, a);
      }
    }
  }

  lemma AcceptedHasAuthority(cfg: Config, s: State, init: seq<Authorization>, last: Authorization)
    ensures Accepts(cfg, AppliedAll(cfg, s, init), last) ==> last.authority.Some?
  {
  }

  /** The refund counts the accepted entries except the first of every authority that did not
      exist beforehand. */
  lemma {:induction false} RefundExact(cfg: Config, s: State, auths: seq<Authorization>)
    ensures Refunds(cfg, s, auths) + |NewAuthorities(cfg, s, auths)| == Total(cfg, s, auths)
  {
    if |auths| == 0 {
      assert NewAuthorities(cfg, s, auths) == {};
    } else {
      var init, last := auths[..|auths| - 1], auths[|auths| - 1];
      assert init + [last] == auths;
      RefundExact(cfg, s, init);
      NewAuthoritiesStep(cfg, s, init, last);
      if Accepts(cfg, AppliedAll(cfg, s, init), last) {
        var a := last.authority.value;
        FinalAccount(cfg, s, init, a);
        if Count(cfg, s, init, a) > 0 {
          CountedIsSigner(cfg, s, init, a);
        }
        var before := NewAuthorities(cfg, s, init);
        assert a in before <==> DidNotExist(Load(s, a)) && Count(cfg, s, init, a) > 0;
        assert IsNew(Load(AppliedAll(cfg, s, init), a)) <==> DidNotExist(Load(s, a)) && Count(cfg, s, init, a) == 0;
        if DidNotExist(Load(s, a)) && Count(cfg, s, init, a) == 0 {
          assert |before + {a}| == |before| + 1;
        } else {
          assert NewAuthorities(cfg, s, auths) == before;
        }
      }
    }
  }
}
