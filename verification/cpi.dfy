/** Cross-program invocation: the callee instruction's account list is
    normalised before the callee runs.  References to the same transaction
    account are merged, and each merged account's signer and writable flags
    are the OR over every reference to it.  A merged account may not be
    writable or signed in the callee unless the caller allows it.  The
    instruction's size and the target program are checked against fixed
    limits.

    Borrowing the caller's accounts, the program account lookup and the
    feature-flag lookup are runtime calls outside this model; their answers
    are parameters. */
module Cpi {
  import opened Bytes
  import opened Wrappers
  import opened SyscallGuards

  type Pubkey = seq<byte>

  /** The FD_EXECUTOR_INSTR_ERR_* codes `fd_vm_prepare_instruction` returns;
      a failed borrow returns the borrow's own code. */
  datatype InstrErr = MissingAcc | NotEnoughAccKeys | PrivilegeEscalation | AccNotExecutable | BorrowFailed(code: nat)

  /** One account reference of the callee instruction, as the caller wrote
      it (`callee_instr->accounts[i]`).  Unknown indices are USHORT_MAX. */
  datatype CalleeAcct = CalleeAcct(indexInTxn: nat, indexInCaller: nat, isSigner: bool, isWritable: bool)

  /** `fd_instruction_account_t`: a merged account, with the position of its
      first reference in the callee's list. */
  datatype InstrAcct = InstrAcct(indexInTxn: nat, indexInCaller: nat, indexInCallee: nat, isWritable: bool, isSigner: bool)

  /** What borrowing one of the caller's instruction accounts yields. */
  datatype CallerBorrow = Borrowed(pubkey: Pubkey, isWritable: bool, isSigner: bool) | BorrowErr(code: nat)

  /** What the runtime knows about the callee program: whether it is one of
      the transaction's accounts, its index among the caller's instruction
      accounts, the error from borrowing it, and whether it is executable. */
  datatype ProgramView = ProgramView(inTxn: bool, instrIdx: Option<nat>, borrowErr: Option<nat>, executable: bool)

  /** The feature flags the CPI code consults. */
  datatype Features = Features(
    liftCpiCallerRestriction: bool,
    removeAccountsExecutableFlagChecks: bool,
    loosenCpiSizeRestriction: bool,
    increaseTxAccountLockLimit: bool,
    enableSecp256r1Precompile: bool,
    enableBpfLoaderSetAuthorityCheckedIx: bool,
    enableExtendProgramChecked: bool)

  datatype Prepared = Prepared(accts: seq<InstrAcct>, callee: seq<CalleeAcct>) | PrepareFailed(err: InstrErr)

  /** The arrays of `fd_vm_prepare_instruction` hold 256 entries. */
  const InstrAcctMax: nat := 256

  predicate CalleeOk(cs: seq<CalleeAcct>)
  {
    |cs| <= InstrAcctMax
  }

  // ---------------------------------------------------------------------
  // Reference definition of the merged account list
  // ---------------------------------------------------------------------

  /** Position of the first of `cs[..n]` referring to transaction account
      `t`, if any. */
  function FirstRef(cs: seq<CalleeAcct>, t: nat, n: nat): (r: Option<nat>)
    requires n <= |cs|
    ensures r.Some? ==> r.value < n && cs[r.value].indexInTxn == t
  {
    if n == 0 then None
    else
      match FirstRef(cs, t, n - 1)
      case Some(f) => Some(f)
      case None => if cs[n - 1].indexInTxn == t then Some(n - 1) else None
  }

  /** Some reference to `t` among `cs[..n]` is writable. */
  predicate WritableIn(cs: seq<CalleeAcct>, t: nat, n: nat)
    requires n <= |cs|
  {
    n > 0 && (WritableIn(cs, t, n - 1) || (cs[n - 1].indexInTxn == t && cs[n - 1].isWritable))
  }

  /** Some reference to `t` among `cs[..n]` is a signer. */
  predicate SignerIn(cs: seq<CalleeAcct>, t: nat, n: nat)
    requires n <= |cs|
  {
    n > 0 && (SignerIn(cs, t, n - 1) || (cs[n - 1].indexInTxn == t && cs[n - 1].isSigner))
  }

  /** The positions of first references among `cs[..n]`, in order: one per
      distinct transaction account. */
  function FirstRefs(cs: seq<CalleeAcct>, n: nat): (refs: seq<nat>)
    requires n <= |cs|
    ensures forall u :: 0 <= u < |refs| ==> refs[u] < n
    ensures forall u, v :: 0 <= u < v < |refs| ==> refs[u] < refs[v]
  {
    if n == 0 then []
    else if FirstRef(cs, cs[n - 1].indexInTxn, n - 1).None? then FirstRefs(cs, n - 1) + [n - 1]
    else FirstRefs(cs, n - 1)
  }

  /** The merged account whose first reference is `cs[f]`, with the flags
      of the references among `cs[..n]`. */
  function Unified(cs: seq<CalleeAcct>, f: nat, n: nat): InstrAcct
    requires f < |cs| && n <= |cs|
  {
    var t := cs[f].indexInTxn;
    InstrAcct(t, cs[f].indexInCaller, f, WritableIn(cs, t, n), SignerIn(cs, t, n))
  }

  /** The merged accounts, in the order of their first references. */
  function UniqueAccts(cs: seq<CalleeAcct>): (us: seq<InstrAcct>)
  {
    var refs := FirstRefs(cs, |cs|);
    seq(|refs|, u requires 0 <= u < |refs| => Unified(cs, refs[u], |cs|))
  }

  /** Some reference among `cs[..n]` names an account the caller could not
      resolve: an unknown transaction index anywhere, or an unknown caller
      index on a first reference. */
  predicate UnknownRef(cs: seq<CalleeAcct>, n: nat)
    requires n <= |cs|
  {
    n > 0 && (UnknownRef(cs, n - 1)
              || cs[n - 1].indexInTxn == UshortMax
              || (FirstRef(cs, cs[n - 1].indexInTxn, n - 1).None? && cs[n - 1].indexInCaller == UshortMax))
  }

  // ---------------------------------------------------------------------
  // Facts about the reference definition
  // ---------------------------------------------------------------------

  /** `FirstRef` finds the least position referring to `t`. */
  lemma {:induction false} FirstRefIsLeast(cs: seq<CalleeAcct>, t: nat, n: nat)
    requires n <= |cs|
    ensures FirstRef(cs, t, n).Some? <==> exists k :: 0 <= k < n && cs[k].indexInTxn == t
    ensures FirstRef(cs, t, n).Some? ==> forall k :: 0 <= k < FirstRef(cs, t, n).value ==> cs[k].indexInTxn != t
  {
    if n > 0 {
      FirstRefIsLeast(cs, t, n - 1);
    }
  }

  /** The merged writable flag is the OR over the references. */
  lemma {:induction false} WritableInIsOr(cs: seq<CalleeAcct>, t: nat, n: nat)
    requires n <= |cs|
    ensures WritableIn(cs, t, n) <==> exists k :: 0 <= k < n && cs[k].indexInTxn == t && cs[k].isWritable
  {
    if n > 0 {
      WritableInIsOr(cs, t, n - 1);
    }
  }

  /** The merged signer flag is the OR over the references. */
  lemma {:induction false} SignerInIsOr(cs: seq<CalleeAcct>, t: nat, n: nat)
    requires n <= |cs|
    ensures SignerIn(cs, t, n) <==> exists k :: 0 <= k < n && cs[k].indexInTxn == t && cs[k].isSigner
  {
    if n > 0 {
      SignerInIsOr(cs, t, n - 1);
    }
  }

  /** With no reference to `t` yet, no flag of `t` is set. */
  lemma {:induction false} NoRefNoFlags(cs: seq<CalleeAcct>, t: nat, n: nat)
    requires n <= |cs| && FirstRef(cs, t, n).None?
    ensures !WritableIn(cs, t, n) && !SignerIn(cs, t, n)
  {
    if n > 0 {
      NoRefNoFlags(cs, t, n - 1);
    }
  }

  /** Every entry of `FirstRefs` is the first reference to its account. */
  lemma {:induction false} FirstRefsAreFirst(cs: seq<CalleeAcct>, n: nat)
    requires n <= |cs|
    ensures forall u :: 0 <= u < |FirstRefs(cs, n)| ==>
              FirstRef(cs, cs[FirstRefs(cs, n)[u]].indexInTxn, n) == Some(FirstRefs(cs, n)[u])
  {
    if n > 0 {
      FirstRefsAreFirst(cs, n - 1);
      var refs := FirstRefs(cs, n - 1);
      forall u | 0 <= u < |refs|
        ensures FirstRef(cs, cs[refs[u]].indexInTxn, n) == Some(refs[u])
      {
        assert FirstRef(cs, cs[refs[u]].indexInTxn, n - 1) == Some(refs[u]);
      }
    }
  }

  /** One more reference is unresolvable exactly as `UnknownRef` says. */
  lemma UnknownRefStep(cs: seq<CalleeAcct>, i: nat)
    requires i < |cs|
    ensures UnknownRef(cs, i + 1) <==> UnknownRef(cs, i) || cs[i].indexInTxn == UshortMax
                                       || (FirstRef(cs, cs[i].indexInTxn, i).None? && cs[i].indexInCaller == UshortMax)
  {
  }

  /** An unresolvable reference stays one however many references follow. */
  lemma {:induction false} UnknownRefStays(cs: seq<CalleeAcct>, n: nat, m: nat)
    requires n <= m <= |cs| && UnknownRef(cs, n)
    ensures UnknownRef(cs, m)
    decreases m
  {
    if m > n {
      UnknownRefStays(cs, n, m - 1);
    }
  }

  // ---------------------------------------------------------------------
  // De-duplication (the first loop)
  // ---------------------------------------------------------------------

  /** `uniques` holds the merged accounts of `cs[..i]`, one per first
      reference, in order. */
  predicate MergedOk(cs: seq<CalleeAcct>, i: nat, uniques: seq<InstrAcct>)
    requires i <= |cs|
  {
    var refs := FirstRefs(cs, i);
    |uniques| == |refs| && forall u {:trigger uniques[u]} :: 0 <= u < |uniques| ==> uniques[u] == Unified(cs, refs[u], i)
  }

  /** `dup[k]` is where reference `k` of `cs[..i]` was merged. */
  predicate PlacedOk(cs: seq<CalleeAcct>, i: nat, n: nat, dup: seq<nat>)
    requires i <= |cs|
  {
    var refs := FirstRefs(cs, i);
    |dup| == i && n == |refs|
    && forall k {:trigger dup[k]} :: 0 <= k < i ==> dup[k] < n && FirstRef(cs, cs[k].indexInTxn, i) == Some(refs[dup[k]])
  }

  /** The state of the de-duplication loop after `i` references. */
  predicate DedupInv(cs: seq<CalleeAcct>, i: nat, uniques: seq<InstrAcct>, dup: seq<nat>)
    requires i <= |cs|
  {
    MergedOk(cs, i, uniques) && PlacedOk(cs, i, |uniques|, dup)
  }

  /** A merged account for `cs[i]`'s transaction account sits at the
      position of its first reference. */
  lemma MatchIsFirst(cs: seq<CalleeAcct>, i: nat, uniques: seq<InstrAcct>, d: nat)
    requires i < |cs| && MergedOk(cs, i, uniques)
    requires d < |uniques| && uniques[d].indexInTxn == cs[i].indexInTxn
    ensures FirstRef(cs, cs[i].indexInTxn, i) == Some(FirstRefs(cs, i)[d])
  {
    FirstRefsAreFirst(cs, i);
  }

  /** With no merged account for `cs[i]`'s transaction account, `cs[i]` is
      its first reference. */
  lemma NoMatchIsNew(cs: seq<CalleeAcct>, i: nat, uniques: seq<InstrAcct>, dup: seq<nat>)
    requires i < |cs| && DedupInv(cs, i, uniques, dup)
    requires forall u :: 0 <= u < |uniques| ==> uniques[u].indexInTxn != cs[i].indexInTxn
    ensures FirstRef(cs, cs[i].indexInTxn, i).None?
  {
    var t := cs[i].indexInTxn;
    if FirstRef(cs, t, i).Some? {
      var f := FirstRef(cs, t, i).value;
      PlacedHasEntry(cs, i, uniques, dup, f);
    }
  }

  /** Every reference so far has a merged entry for its account. */
  lemma PlacedHasEntry(cs: seq<CalleeAcct>, i: nat, uniques: seq<InstrAcct>, dup: seq<nat>, k: nat)
    requires i <= |cs| && DedupInv(cs, i, uniques, dup) && k < i
    ensures dup[k] < |uniques| && uniques[dup[k]].indexInTxn == cs[k].indexInTxn
  {
    assert uniques[dup[k]] == Unified(cs, FirstRefs(cs, i)[dup[k]], i);
  }

  /** Merging a repeated reference into entry `d` ORs in its flags. */
  lemma MergedDup(cs: seq<CalleeAcct>, i: nat, uniques: seq<InstrAcct>, d: nat)
    requires i < |cs| && MergedOk(cs, i, uniques)
    requires d < |uniques| && FirstRef(cs, cs[i].indexInTxn, i) == Some(FirstRefs(cs, i)[d])
    ensures MergedOk(cs, i + 1,
                     uniques[d := uniques[d].(isSigner := uniques[d].isSigner || cs[i].isSigner,
                                              isWritable := uniques[d].isWritable || cs[i].isWritable)])
  {
    var refs := FirstRefs(cs, i);
    var t := cs[i].indexInTxn;
    FirstRefsAreFirst(cs, i);
    assert FirstRefs(cs, i + 1) == refs;
    var uniques' := uniques[d := uniques[d].(isSigner := uniques[d].isSigner || cs[i].isSigner,
                                             isWritable := uniques[d].isWritable || cs[i].isWritable)];
    forall u | 0 <= u < |uniques'|
      ensures uniques'[u] == Unified(cs, refs[u], i + 1)
    {
      if u != d {
        assert FirstRef(cs, cs[refs[u]].indexInTxn, i) == Some(refs[u]);
      }
    }
  }

  /** A repeated reference is placed at its account's entry `d`. */
  lemma PlacedDup(cs: seq<CalleeAcct>, i: nat, n: nat, dup: seq<nat>, d: nat)
    requires i < |cs| && PlacedOk(cs, i, n, dup)
    requires d < n && FirstRef(cs, cs[i].indexInTxn, i) == Some(FirstRefs(cs, i)[d])
    ensures PlacedOk(cs, i + 1, n, dup + [d])
  {
    var refs := FirstRefs(cs, i);
    assert FirstRefs(cs, i + 1) == refs;
    var dup' := dup + [d];
    forall k | 0 <= k < i + 1
      ensures dup'[k] < n && FirstRef(cs, cs[k].indexInTxn, i + 1) == Some(refs[dup'[k]])
    {
      if k < i {
        assert FirstRef(cs, cs[k].indexInTxn, i) == Some(refs[dup[k]]);
      }
    }
  }

  /** A first reference adds an entry with its own flags. */
  lemma MergedNew(cs: seq<CalleeAcct>, i: nat, uniques: seq<InstrAcct>)
    requires i < |cs| && MergedOk(cs, i, uniques)
    requires FirstRef(cs, cs[i].indexInTxn, i).None?
    ensures MergedOk(cs, i + 1,
                     uniques + [InstrAcct(cs[i].indexInTxn, cs[i].indexInCaller, i, cs[i].isWritable, cs[i].isSigner)])
  {
    var refs := FirstRefs(cs, i);
    var t := cs[i].indexInTxn;
    NoRefNoFlags(cs, t, i);
    FirstRefsAreFirst(cs, i);
    assert FirstRefs(cs, i + 1) == refs + [i];
    var uniques' := uniques + [InstrAcct(t, cs[i].indexInCaller, i, cs[i].isWritable, cs[i].isSigner)];
    forall u | 0 <= u < |uniques'|
      ensures uniques'[u] == Unified(cs, (refs + [i])[u], i + 1)
    {
      if u < |uniques| {
        assert FirstRef(cs, cs[refs[u]].indexInTxn, i) == Some(refs[u]);
      }
    }
  }

  /** A first reference is placed at the new last entry. */
  lemma PlacedNew(cs: seq<CalleeAcct>, i: nat, n: nat, dup: seq<nat>)
    requires i < |cs| && PlacedOk(cs, i, n, dup)
    requires FirstRef(cs, cs[i].indexInTxn, i).None?
    ensures PlacedOk(cs, i + 1, n + 1, dup + [n])
  {
    var refs := FirstRefs(cs, i);
    assert FirstRefs(cs, i + 1) == refs + [i];
    var dup' := dup + [n];
    forall k | 0 <= k < i + 1
      ensures dup'[k] < n + 1 && FirstRef(cs, cs[k].indexInTxn, i + 1) == Some((refs + [i])[dup'[k]])
    {
      if k < i {
        assert FirstRef(cs, cs[k].indexInTxn, i) == Some(refs[dup[k]]);
      }
    }
  }

  /** The index of the merged account for transaction account `t`, if it
      has one (the inner search of the first loop). */
  method FindMerged(uniques: seq<InstrAcct>, t: nat) returns (d: Option<nat>)
    ensures d.Some? ==> d.value < |uniques| && uniques[d.value].indexInTxn == t
    ensures d.Some? ==> forall u :: 0 <= u < d.value ==> uniques[u].indexInTxn != t
    ensures d.None? ==> forall u :: 0 <= u < |uniques| ==> uniques[u].indexInTxn != t
  {
    var j := 0;
    while j < |uniques|
      invariant 0 <= j <= |uniques|
      invariant forall u :: 0 <= u < j ==> uniques[u].indexInTxn != t
    {
      if uniques[j].indexInTxn == t {
        return Some(j);
      }
      j := j + 1;
    }
    return None;
  }

  datatype Dedup = Dedup(uniques: seq<InstrAcct>, dup: seq<nat>) | DedupFailed(err: InstrErr)

  /** The first loop of `fd_vm_prepare_instruction`: merge the references,
      failing with MISSING_ACC on an unknown transaction index, or on an
      unknown caller index at an account's first reference. */
  method DedupAccounts(cs: seq<CalleeAcct>) returns (r: Dedup)
    requires CalleeOk(cs)
    ensures r.DedupFailed? <==> UnknownRef(cs, |cs|)
    ensures r.DedupFailed? ==> r.err == MissingAcc
    ensures r.Dedup? ==> DedupInv(cs, |cs|, r.uniques, r.dup)
  {
    var uniques: seq<InstrAcct> := [];
    var dup: seq<nat> := [];
    var i := 0;
    while i < |cs|
      invariant 0 <= i <= |cs|
      invariant DedupInv(cs, i, uniques, dup) && !UnknownRef(cs, i)
    {
      var step := DedupStep(cs, i, uniques, dup);
      if step.DedupFailed? {
        UnknownRefStays(cs, i + 1, |cs|);
        return step;
      }
      uniques, dup := step.uniques, step.dup;
      i := i + 1;
    }
    return Dedup(uniques, dup);
  }

  /** One iteration of the first loop, on reference `i`. */
  method DedupStep(cs: seq<CalleeAcct>, i: nat, uniques: seq<InstrAcct>, dup: seq<nat>) returns (r: Dedup)
    requires i < |cs| && DedupInv(cs, i, uniques, dup) && !UnknownRef(cs, i)
    ensures r.DedupFailed? <==> UnknownRef(cs, i + 1)
    ensures r.DedupFailed? ==> r.err == MissingAcc
    ensures r.Dedup? ==> DedupInv(cs, i + 1, r.uniques, r.dup)
  {
    var t := cs[i].indexInTxn;
    UnknownRefStep(cs, i);
    if t == UshortMax {
      return DedupFailed(MissingAcc);
    }
    var d := FindMerged(uniques, t);
    if d.Some? {
      // The NOT_ENOUGH_ACC_KEYS guard on the found index can never fire.
      assert d.value < |uniques|;
      var u := uniques[d.value];
      MatchIsFirst(cs, i, uniques, d.value);
      MergedDup(cs, i, uniques, d.value);
      PlacedDup(cs, i, |uniques|, dup, d.value);
      return Dedup(uniques[d.value := u.(isSigner := u.isSigner || cs[i].isSigner,
                                         isWritable := u.isWritable || cs[i].isWritable)],
                   dup + [d.value]);
    }
    NoMatchIsNew(cs, i, uniques, dup);
    if cs[i].indexInCaller == UshortMax {
      return DedupFailed(MissingAcc);
    }
    MergedNew(cs, i, uniques);
    PlacedNew(cs, i, |uniques|, dup);
    return Dedup(uniques + [InstrAcct(t, cs[i].indexInCaller, i, cs[i].isWritable, cs[i].isSigner)],
                 dup + [|uniques|]);
  }

  // ---------------------------------------------------------------------
  // Privilege checks (the second loop)
  // ---------------------------------------------------------------------

  /** `fd_vm_syscall_cpi_is_signer`: a linear search of the signer list. */
  method IsSigner(account: Pubkey, signers: seq<Pubkey>) returns (r: bool)
    ensures r <==> account in signers
  {
    var i := 0;
    while i < |signers|
      invariant 0 <= i <= |signers|
      invariant account !in signers[..i]
    {
      if account == signers[i] {
        return true;
      }
      i := i + 1;
    }
    assert signers[..i] == signers;
    return false;
  }

  /** The error the privilege check raises for one merged account, if any:
      the borrow's error, then a writable escalation, then a signer
      escalation.  A callee signer is allowed when the caller signed the
      account or the account is one of the program-derived signers. */
  function PrivFault(a: InstrAcct, borrow: nat -> CallerBorrow, signers: seq<Pubkey>): (e: Option<InstrErr>)
    ensures e.Some? ==> e.value == PrivilegeEscalation || e.value.BorrowFailed?
  {
    match borrow(a.indexInCaller)
    case BorrowErr(c) => Some(BorrowFailed(c))
    case Borrowed(key, w, s) =>
      if a.isWritable && !w then Some(PrivilegeEscalation)
      else if a.isSigner && !(s || key in signers) then Some(PrivilegeEscalation)
      else None
  }

  /** The fault of the first merged account from `u` on that has one. */
  function FirstPrivFault(us: seq<InstrAcct>, borrow: nat -> CallerBorrow, signers: seq<Pubkey>, u: nat): (e: Option<InstrErr>)
    ensures e.Some? ==> e.value == PrivilegeEscalation || e.value.BorrowFailed?
    decreases |us| - u
  {
    if u >= |us| then None
    else if PrivFault(us[u], borrow, signers).Some? then PrivFault(us[u], borrow, signers)
    else FirstPrivFault(us, borrow, signers, u + 1)
  }

  /** No privilege fault is reported exactly when no merged account has
      one; a reported fault is that of some merged account. */
  lemma {:induction false} FirstPrivFaultIff(us: seq<InstrAcct>, borrow: nat -> CallerBorrow, signers: seq<Pubkey>, u: nat)
    ensures FirstPrivFault(us, borrow, signers, u).None?
            <==> forall v :: u <= v < |us| ==> PrivFault(us[v], borrow, signers).None?
    ensures FirstPrivFault(us, borrow, signers, u).Some? ==>
              exists v :: u <= v < |us| && PrivFault(us[v], borrow, signers) == FirstPrivFault(us, borrow, signers, u)
    decreases |us| - u
  {
    if u < |us| {
      FirstPrivFaultIff(us, borrow, signers, u + 1);
    }
  }

  /** The second loop of `fd_vm_prepare_instruction`. */
  method CheckPrivileges(us: seq<InstrAcct>, borrow: nat -> CallerBorrow, signers: seq<Pubkey>) returns (e: Option<InstrErr>)
    ensures e == FirstPrivFault(us, borrow, signers, 0)
  {
    var u := 0;
    while u < |us|
      invariant 0 <= u <= |us|
      invariant FirstPrivFault(us, borrow, signers, 0) == FirstPrivFault(us, borrow, signers, u)
    {
      var a := us[u];
      match borrow(a.indexInCaller)
      case BorrowErr(c) =>
        return Some(BorrowFailed(c));
      case Borrowed(key, w, s) =>
        if a.isWritable && !w {
          return Some(PrivilegeEscalation);
        }
        if a.isSigner {
          var listed := IsSigner(key, signers);
          if !(s || listed) {
            return Some(PrivilegeEscalation);
          }
        }
      u := u + 1;
    }
    return None;
  }

  // ---------------------------------------------------------------------
  // Output (the third loop) and the program check
  // ---------------------------------------------------------------------

  /** The third loop: reference `i` gets its merged account, and the
      callee's own flags are overwritten with the merged ones.  An index
      past the merged list is NOT_ENOUGH_ACC_KEYS. */
  method CopyMerged(cs: seq<CalleeAcct>, uniques: seq<InstrAcct>, dup: seq<nat>) returns (r: Prepared)
    requires |dup| == |cs|
    ensures r.Prepared? <==> forall k :: 0 <= k < |dup| ==> dup[k] < |uniques|
    ensures r.PrepareFailed? ==> r.err == NotEnoughAccKeys
    ensures r.Prepared? ==> |r.accts| == |cs| && |r.callee| == |cs|
    ensures r.Prepared? ==> forall k :: 0 <= k < |cs| ==>
              r.accts[k] == uniques[dup[k]]
              && r.callee[k] == cs[k].(isWritable := uniques[dup[k]].isWritable, isSigner := uniques[dup[k]].isSigner)
  {
    var accts: seq<InstrAcct> := [];
    var callee := cs;
    var i := 0;
    while i < |dup|
      invariant 0 <= i <= |dup| && |accts| == i && |callee| == |cs|
      invariant forall k :: 0 <= k < i ==> dup[k] < |uniques| && accts[k] == uniques[dup[k]]
      invariant forall k :: 0 <= k < i ==>
                  callee[k] == cs[k].(isWritable := uniques[dup[k]].isWritable, isSigner := uniques[dup[k]].isSigner)
      invariant forall k :: i <= k < |cs| ==> callee[k] == cs[k]
    {
      var d := dup[i];
      if d < |uniques| {
        accts := accts + [uniques[d]];
        callee := callee[i := callee[i].(isWritable := uniques[d].isWritable, isSigner := uniques[d].isSigner)];
      } else {
        return PrepareFailed(NotEnoughAccKeys);
      }
      i := i + 1;
    }
    return Prepared(accts, callee);
  }

  /** The program check at the end of `fd_vm_prepare_instruction`: with
      lift_cpi_caller_restriction the program need only be a transaction
      account; otherwise it must be one of the caller's instruction
      accounts, borrowable, and executable unless
      remove_accounts_executable_flag_checks is active. */
  function ProgramFault(p: ProgramView, f: Features): (e: Option<InstrErr>)
    ensures f.liftCpiCallerRestriction ==> (e.None? <==> p.inTxn)
    ensures !f.liftCpiCallerRestriction ==>
              (e.None? <==> p.instrIdx.Some? && p.borrowErr.None? && (p.executable || f.removeAccountsExecutableFlagChecks))
    ensures e.Some? ==> e.value == MissingAcc || e.value == AccNotExecutable || e.value.BorrowFailed?
  {
    if f.liftCpiCallerRestriction then
      if !p.inTxn then Some(MissingAcc) else None
    else if p.instrIdx.None? then Some(MissingAcc)
    else if p.borrowErr.Some? then Some(BorrowFailed(p.borrowErr.value))
    else if !f.removeAccountsExecutableFlagChecks && !p.executable then Some(AccNotExecutable)
    else None
  }

  /** `fd_vm_prepare_instruction`. */
  method PrepareInstruction(cs: seq<CalleeAcct>, borrow: nat -> CallerBorrow, signers: seq<Pubkey>,
                            p: ProgramView, f: Features) returns (r: Prepared)
    requires CalleeOk(cs)
    ensures r != PrepareFailed(NotEnoughAccKeys)
    ensures UnknownRef(cs, |cs|) ==> r == PrepareFailed(MissingAcc)
    ensures !UnknownRef(cs, |cs|) && FirstPrivFault(UniqueAccts(cs), borrow, signers, 0).Some? ==>
              r == PrepareFailed(FirstPrivFault(UniqueAccts(cs), borrow, signers, 0).value)
    ensures !UnknownRef(cs, |cs|) && FirstPrivFault(UniqueAccts(cs), borrow, signers, 0).None? ==>
              (ProgramFault(p, f).Some? ==> r == PrepareFailed(ProgramFault(p, f).value))
              && (ProgramFault(p, f).None? ==> r.Prepared?)
    ensures r.Prepared? ==> |r.accts| == |cs| && |r.callee| == |cs|
    ensures r.Prepared? ==> forall k :: 0 <= k < |cs| ==>
              FirstRef(cs, cs[k].indexInTxn, |cs|) == Some(r.accts[k].indexInCallee)
              && r.accts[k] == Unified(cs, r.accts[k].indexInCallee, |cs|)
              && r.callee[k] == cs[k].(isWritable := r.accts[k].isWritable, isSigner := r.accts[k].isSigner)
  {
    var dd := DedupAccounts(cs);
    if dd.DedupFailed? {
      return PrepareFailed(dd.err);
    }
    var uniques, dup := dd.uniques, dd.dup;
    assert uniques == UniqueAccts(cs);
    var e := CheckPrivileges(uniques, borrow, signers);
    if e.Some? {
      return PrepareFailed(e.value);
    }
    r := CopyMerged(cs, uniques, dup);
    if r.PrepareFailed? {
      return;
    }
    var pf := ProgramFault(p, f);
    if pf.Some? {
      return PrepareFailed(pf.value);
    }
  }

  // ---------------------------------------------------------------------
  // Instruction limits
  // ---------------------------------------------------------------------

  /** FD_VM_RUST_ACCOUNT_META_SIZE: the serialized size of one account
      meta. */
  const RustAccountMetaSize: nat := 34
  /** FD_VM_MAX_CPI_INSTRUCTION_SIZE: the size bound used before
      loosen_cpi_size_restriction. */
  const MaxCpiInstructionSize: nat := 1280
  /** FD_CPI_MAX_INSTRUCTION_DATA_LEN */
  const MaxInstructionDataLen: nat := 10240
  /** FD_CPI_MAX_INSTRUCTION_ACCOUNTS */
  const MaxInstructionAccounts: nat := 255
  /** FD_CPI_MAX_ACCOUNT_INFOS, equal to MAX_TX_ACCOUNT_LOCKS. */
  const MaxAccountInfos: nat := 128

  /** `fd_vm_syscall_cpi_check_instruction`.  With
      loosen_cpi_size_restriction the data length and the account count
      are bounded separately, data first; otherwise their combined
      serialized size is bounded, and the saturating arithmetic never
      lets an oversized instruction through. */
  function CheckInstruction(acctCnt: nat, dataSz: nat, loosen: bool): (r: Option<SyscallErr>)
    requires acctCnt <= UlongMax && dataSz <= UlongMax
    ensures loosen ==> (r.None? <==> dataSz <= MaxInstructionDataLen && acctCnt <= MaxInstructionAccounts)
    ensures loosen && dataSz > MaxInstructionDataLen ==> r == Some(MaxInstructionDataLenExceeded)
    ensures loosen && dataSz <= MaxInstructionDataLen && acctCnt > MaxInstructionAccounts ==>
              r == Some(MaxInstructionAccountsExceeded)
    ensures !loosen ==> (r.None? <==> RustAccountMetaSize * acctCnt + dataSz <= MaxCpiInstructionSize)
    ensures !loosen && r.Some? ==> r == Some(InstructionTooLarge)
  {
    if loosen then
      if dataSz > MaxInstructionDataLen then Some(MaxInstructionDataLenExceeded)
      else if acctCnt > MaxInstructionAccounts then Some(MaxInstructionAccountsExceeded)
      else None
    else
      var totSz := SatAdd(SatMul(RustAccountMetaSize, acctCnt), dataSz);
      if totSz > MaxCpiInstructionSize then Some(InstructionTooLarge) else None
  }

  /** Loosening the size restriction never rejects an instruction the old
      combined bound accepted. */
  lemma LoosenOnlyWidens(acctCnt: nat, dataSz: nat)
    requires acctCnt <= UlongMax && dataSz <= UlongMax
    ensures CheckInstruction(acctCnt, dataSz, false).None? ==> CheckInstruction(acctCnt, dataSz, true).None?
  {
  }

  /** `get_cpi_max_account_infos`: the account-info limit, raised to
      MAX_TX_ACCOUNT_LOCKS by increase_tx_account_lock_limit. */
  function CpiMaxAccountInfos(f: Features): (r: nat)
    ensures r <= MaxAccountInfos
    ensures r == MaxAccountInfos <==> f.increaseTxAccountLockLimit
    ensures !f.increaseTxAccountLockLimit ==> r == MaxAccountInfos / 2
  {
    if f.increaseTxAccountLockLimit then MaxAccountInfos else 64
  }

  // ---------------------------------------------------------------------
  // Programs a CPI may not target
  // ---------------------------------------------------------------------

  /** The program ids `fd_vm_syscall_cpi_check_authorized_program` compares
      against; their 32-byte values live outside this model, so a
      comparison with one of them is a comparison of constructors. */
  datatype ProgramId =
    | NativeLoader
    | BpfLoader
    | BpfLoaderDeprecated
    | BpfLoaderUpgradeable
    | KeccakSecp256k1
    | Ed25519SigVerify
    | Secp256r1
    | OtherProgram(key: Pubkey)

  /** Upgradeable-loader instruction tags (the first data byte). */
  const UpgradeTag: nat := 3
  const SetAuthorityTag: nat := 4
  const CloseTag: nat := 5
  const SetAuthorityCheckedTag: nat := 7
  const ExtendProgramCheckedTag: nat := 9

  /** `fd_vm_syscall_cpi_is_precompile`. */
  function IsPrecompile(id: ProgramId, f: Features): (r: bool)
    ensures r ==> id == KeccakSecp256k1 || id == Ed25519SigVerify || id == Secp256r1
    ensures id == KeccakSecp256k1 || id == Ed25519SigVerify ==> r
    ensures id == Secp256r1 ==> (r <==> f.enableSecp256r1Precompile)
  {
    id == KeccakSecp256k1 || id == Ed25519SigVerify || (id == Secp256r1 && f.enableSecp256r1Precompile)
  }

  /** The upgradeable-loader instructions a program may invoke through CPI
      under feature set `f`: upgrade, set-authority and close, plus the
      checked set-authority and extend-program variants once their features
      are active.  Every other upgradeable-loader instruction is refused. */
  function CpiCallableTags(f: Features): set<nat>
  {
    {UpgradeTag, SetAuthorityTag, CloseTag}
    + (if f.enableBpfLoaderSetAuthorityCheckedIx then {SetAuthorityCheckedTag} else {})
    + (if f.enableExtendProgramChecked then {ExtendProgramCheckedTag} else {})
  }

  /** `fd_vm_syscall_cpi_check_authorized_program`, the counterpart of
      Agave's `check_authorized_program`: a true result means the program is
      NOT supported as a CPI target (Agave's ProgramNotSupported).  The
      loaders and the precompiles are refused, the upgradeable loader is
      refused for every instruction outside its CPI-callable set, and any
      other program may be invoked. */
  function CheckAuthorizedProgram(id: ProgramId, data: seq<byte>, f: Features): (notSupported: bool)
    ensures id == NativeLoader || id == BpfLoader || id == BpfLoaderDeprecated ==> notSupported
    ensures id == BpfLoaderUpgradeable ==> (notSupported <==> |data| == 0 || data[0] !in CpiCallableTags(f))
    ensures id.OtherProgram? ==> !notSupported
    ensures IsPrecompile(id, f) ==> notSupported
    ensures id == Secp256r1 ==> (notSupported <==> f.enableSecp256r1Precompile)
  {
    var tagIs := (tag: nat) => |data| != 0 && data[0] == tag;
    id == NativeLoader
    || id == BpfLoader
    || id == BpfLoaderDeprecated
    || (id == BpfLoaderUpgradeable
        && !(tagIs(UpgradeTag)
             || tagIs(SetAuthorityTag)
             || (f.enableBpfLoaderSetAuthorityCheckedIx && tagIs(SetAuthorityCheckedTag))
             || (f.enableExtendProgramChecked && tagIs(ExtendProgramCheckedTag))
             || tagIs(CloseTag)))
    || IsPrecompile(id, f)
  }

  /** Activating the checked set-authority and extend-program instructions
      can only make more upgradeable-loader instructions callable: whatever
      is refused with both features active is refused without them. */
  lemma CheckedIxOnlyAdmitMore(id: ProgramId, data: seq<byte>, f: Features)
    ensures CheckAuthorizedProgram(id, data, f.(enableBpfLoaderSetAuthorityCheckedIx := true, enableExtendProgramChecked := true))
            ==> CheckAuthorizedProgram(id, data, f)
  {
  }

  /** Only the upgradeable loader's refusal depends on the instruction data. */
  lemma AuthorityIgnoresData(id: ProgramId, d0: seq<byte>, d1: seq<byte>, f: Features)
    requires id != BpfLoaderUpgradeable
    ensures CheckAuthorizedProgram(id, d0, f) == CheckAuthorizedProgram(id, d1, f)
  {
  }
}
