/**
 Home directories: table homedir has the directories, table account_home says
 which of them an account uses for which spread.  A directory that its account
 does not use any more is removed along with its last use.
 */
module Homes {
  import opened Wrappers

  /** A row of homedir as a statement is to write it; None is NULL. */
  datatype Homedir = Homedir(account: int, home: Option<string>, diskId: Option<int>, status: Option<int>)

  /** Primary key of account_home. */
  datatype Slot = Slot(account: int, spread: int)

  datatype Tables = Tables(homedirs: map<int, Homedir>, homes: map<Slot, int>)

  /** An argument that may be left out, as opposed to given as nothing. */
  datatype Arg<T> = NotSet | To(value: T)

  datatype Failure = IllegalHome | NotFound | ConstraintViolated

  function OrElse<T>(arg: Arg<T>, default: T): T {
    if arg.NotSet? then default else arg.value
  }

  /** What an argument that may be left out stands for. */
  ghost function Given<T>(arg: Arg<T>, was: T): T {
    match arg
    case NotSet => was
    case To(value) => value
  }

  /** A path or a disk is known, and a status. */
  ghost predicate Sufficient(home: Option<string>, diskId: Option<int>, status: Option<int>) {
    (home != None || diskId != None) && status != None
  }

  /** A directory is somewhere, and has a status. */
  predicate Complete(h: Homedir) {
    (h.home.Some? || h.diskId.Some?) && h.status.Some?
  }

  /**
   The constraints of the tables: directories are complete, and every home points
   at a directory that exists and is of the same account.
   */
  ghost predicate Constrained(t: Tables) {
    && (forall id :: id in t.homedirs ==>
          (t.homedirs[id].home != None || t.homedirs[id].diskId != None) && t.homedirs[id].status != None)
    && (forall s :: s in t.homes ==> t.homes[s] in t.homedirs && t.homedirs[t.homes[s]].account == s.account)
  }

  predicate Used(t: Tables, id: int) {
    exists s :: s in t.homes && t.homes[s] == id
  }

  predicate UsedBy(t: Tables, id: int, account: int) {
    exists s :: s in t.homes && t.homes[s] == id && s.account == account
  }

  /** Every directory is used, except those that were created and not set yet. */
  ghost predicate Collected(t: Tables, pending: set<int>) {
    && (forall id :: id in t.homedirs ==> id in pending || exists s :: s in t.homes && t.homes[s] == id)
    && (forall id :: id in pending ==> id in t.homedirs && forall s :: s in t.homes ==> t.homes[s] != id)
  }

  /** The tables with the slot set to a directory, and with the one it had before removed if that is not used. */
  ghost function HomeSet(t: Tables, slot: Slot, id: int): Tables {
    var t' := t.(homes := t.homes[slot := id]);
    if && slot in t.homes && t.homes[slot] != id
       && forall s :: s in t'.homes && s.account == slot.account ==> t'.homes[s] != t.homes[slot]
    then t'.(homedirs := t'.homedirs - {t.homes[slot]})
    else t'
  }

  ghost function HomeCleared(t: Tables, slot: Slot): Tables {
    var t' := t.(homes := t.homes - {slot});
    if slot in t.homes && forall s :: s in t'.homes ==> t'.homes[s] != t.homes[slot]
    then t'.(homedirs := t'.homedirs - {t.homes[slot]})
    else t'
  }

  ghost function WithoutHomes(t: Tables, account: int): Tables {
    t.(homes := map s | s in t.homes && s.account != account :: t.homes[s])
  }

  ghost function WithoutAccount(t: Tables, account: int): Tables {
    WithoutHomes(t, account).(homedirs := map id | id in t.homedirs && t.homedirs[id].account != account :: t.homedirs[id])
  }

  const ILLEGAL := ":*\"?<>|"

  predicate HasIllegal(home: string) {
    exists c :: c in home && c in ILLEGAL
  }

  class AccountHome {
    var t: Tables
    var nextId: int
    /** The directories that were created and not set yet. */
    ghost var pending: set<int>
    /** The tables after each statement so far, the latest last. */
    ghost var history: seq<Tables>

    /** Besides the constraints: ids are new, and all directories are used or still to be set. */
    ghost predicate Valid()
      reads this
    {
      && (forall id :: id in t.homedirs ==> id < nextId)
      && Logged() && Collected(t, pending)
    }

    /** The constraints have held after each statement. */
    ghost predicate Logged()
      reads this`t, this`history
    {
      && history != [] && history[|history| - 1] == t
      && forall i :: 0 <= i < |history| ==> Constrained(history[i])
    }

    constructor ()
      ensures Valid() && t == Tables(map[], map[]) && pending == {}
    {
      t, nextId, pending := Tables(map[], map[]), 0, {};
      history := [Tables(map[], map[])];
    }

    /** One statement; it must not break a constraint. */
    method Execute(t': Tables)
      requires Logged() && Constrained(t')
      modifies this`t, this`history
      ensures Logged() && t == t' && history == old(history) + [t']
    {
      t := t';
      history := history + [t'];
    }

    /**
     Create a directory, or change the given one; the account becomes its owner.
     Refused for one that is not complete, or that another account uses.
     */
    method SetHomedir(account: int, currentId: Option<int>, home: Arg<Option<string>>,
                      diskId: Arg<Option<int>>, status: Arg<Option<int>>) returns (r: Result<int, Failure>)
      requires Valid()
      modifies this
      ensures Valid() && old(history) <= history
      ensures r == Err(IllegalHome) <==>
                home.To? && home.value.Some? &&
                exists i :: 0 <= i < |home.value.value| && home.value.value[i] in [':', '*', '"', '?', '<', '>', '|']
      ensures r.Err? ==> r.error != NotFound && t == old(t) && pending == old(pending)
      ensures currentId.None? && r != Err(IllegalHome) ==>
                && (r.Ok? <==> Sufficient(Given(home, None), Given(diskId, None), Given(status, None)))
                && (r.Ok? ==> && r.value !in old(t).homedirs && pending == old(pending) + {r.value}
                              && t == old(t).(homedirs := old(t).homedirs[r.value :=
                                   Homedir(account, Given(home, None), Given(diskId, None), Given(status, None))]))
      ensures currentId.Some? && r != Err(IllegalHome) ==>
                var id := currentId.value;
                if id !in old(t).homedirs then r == Ok(id) && t == old(t) && pending == old(pending) else
                var was := old(t).homedirs[id];
                && (r.Ok? <==> && Sufficient(Given(home, was.home), Given(diskId, was.diskId), Given(status, was.status))
                               && (was.account == account || forall s :: s in old(t).homes ==> old(t).homes[s] != id))
                && (r.Ok? ==> && r == Ok(id) && pending == old(pending)
                              && t == old(t).(homedirs := old(t).homedirs[id :=
                                   Homedir(account, Given(home, was.home), Given(diskId, was.diskId), Given(status, was.status))]))
    {
      if home.To? && home.value.Some? && HasIllegal(home.value.value) {
        return Err(IllegalHome);
      }
      if currentId.None? {
        r := CreateHomedir(Homedir(account, OrElse(home, None), OrElse(diskId, None), OrElse(status, None)));
        return;
      }
      var id := currentId.value;
      if id !in t.homedirs {
        return Ok(id);
      }
      var was := t.homedirs[id];
      r := UpdateHomedir(id, Homedir(account, OrElse(home, was.home), OrElse(diskId, was.diskId), OrElse(status, was.status)));
    }

    method CreateHomedir(row: Homedir) returns (r: Result<int, Failure>)
      requires Valid()
      modifies this
      ensures Valid() && old(history) <= history
      ensures r == if Complete(row) then Ok(old(nextId)) else Err(ConstraintViolated)
      ensures r.Err? ==> t == old(t) && pending == old(pending)
      ensures r.Ok? ==> && r.value !in old(t).homedirs && pending == old(pending) + {r.value}
                        && t == old(t).(homedirs := old(t).homedirs[r.value := row])
    {
      var id := nextId;
      nextId := nextId + 1;
      if !Complete(row) {
        return Err(ConstraintViolated);
      }
      CreateKeepsCollected(t, pending, id, row);
      pending := pending + {id};
      Execute(t.(homedirs := t.homedirs[id := row]));
      return Ok(id);
    }

    method UpdateHomedir(id: int, row: Homedir) returns (r: Result<int, Failure>)
      requires Valid() && id in t.homedirs
      modifies this`t, this`history
      ensures Valid() && old(history) <= history
      ensures r == if Complete(row) && (old(t).homedirs[id].account == row.account || !Used(old(t), id))
                   then Ok(id) else Err(ConstraintViolated)
      ensures t == if r.Ok? then old(t).(homedirs := old(t).homedirs[id := row]) else old(t)
    {
      UpdateAllowed(t, pending, id, row);
      if t.homedirs[id] == row {
        assert t.homedirs[id := row] == t.homedirs;
        return Ok(id);
      }
      if !Complete(row) || (t.homedirs[id].account != row.account && Used(t, id)) {
        return Err(ConstraintViolated);
      }
      Execute(t.(homedirs := t.homedirs[id := row]));
      return Ok(id);
    }

    /**
     Let the account use the directory for the spread.  Refused for another
     account's directory.
     */
    method SetHome(account: int, spread: int, id: int) returns (failure: Option<Failure>)
      requires Valid()
      modifies this`t, this`history, this`pending
      ensures Valid() && old(history) <= history
      ensures failure == if id !in old(t).homedirs then Some(NotFound)
                         else if old(t).homedirs[id].account != account then Some(ConstraintViolated)
                         else None
      ensures t == if failure.None? then HomeSet(old(t), Slot(account, spread), id) else old(t)
      ensures pending == if failure.None? then old(pending) - {id} else old(pending)
    {
      if id !in t.homedirs {
        return Some(NotFound);
      }
      var slot := Slot(account, spread);
      SetAllowed(t, slot, id);
      if slot in t.homes && t.homes[slot] == id {
        assert t.homes[slot := id] == t.homes;
        return None;
      }
      if t.homedirs[id].account != account {
        return Some(ConstraintViolated);
      }
      MoveHome(slot, id);
      return None;
    }

    /** Point the slot at the directory, and remove the one it pointed at if the account does not use it any more. */
    method MoveHome(slot: Slot, id: int)
      requires Valid() && id in t.homedirs && t.homedirs[id].account == slot.account
      requires slot in t.homes ==> t.homes[slot] != id
      modifies this`t, this`history, this`pending
      ensures Valid() && old(history) <= history
      ensures t == HomeSet(old(t), slot, id) && pending == old(pending) - {id}
    {
      SetAllowed(t, slot, id);
      SetKeepsCollected(t, pending, slot, id);
      HomeSetByUse(t, slot, id);
      var before := t;
      Execute(t.(homes := t.homes[slot := id]));
      if slot in before.homes && !UsedBy(t, before.homes[slot], slot.account) {
        Execute(t.(homedirs := t.homedirs - {before.homes[slot]}));
      }
      pending := pending - {id};
    }

    /** Give up the home for the spread, and its directory if nothing else uses it. */
    method ClearHome(account: int, spread: int)
      requires Valid()
      modifies this`t, this`history
      ensures Valid() && old(history) <= history
      ensures t == HomeCleared(old(t), Slot(account, spread))
    {
      var slot := Slot(account, spread);
      if slot !in t.homes {
        assert t.homes - {slot} == t.homes;
        return;
      }
      ClearKeepsCollected(t, pending, slot);
      HomeClearedByUse(t, slot);
      var id := t.homes[slot];
      Execute(t.(homes := t.homes - {slot}));
      if !Used(t, id) {
        Execute(t.(homedirs := t.homedirs - {id}));
      }
    }

    /** Remove all homes and directories of an account. */
    method Delete(account: int)
      requires Valid()
      modifies this`t, this`history, this`pending
      ensures Valid() && old(history) <= history
      ensures t == WithoutAccount(old(t), account)
      ensures forall id :: id in pending <==> id in old(pending) && old(t).homedirs[id].account != account
    {
      DeleteKeepsCollected(t, pending, account);
      pending := set id | id in pending && t.homedirs[id].account != account;
      Execute(t.(homes := map s | s in t.homes && s.account != account :: t.homes[s]));
      Execute(t.(homedirs := map id | id in t.homedirs && t.homedirs[id].account != account :: t.homedirs[id]));
    }
  }

  /** Creating a directory leaves one more to be set. */
  lemma CreateKeepsCollected(t: Tables, pending: set<int>, id: int, row: Homedir)
    requires Constrained(t) && Collected(t, pending) && id !in t.homedirs
    ensures Collected(t.(homedirs := t.homedirs[id := row]), pending + {id})
  {
    var t' := t.(homedirs := t.homedirs[id := row]);
    assert !Used(t, id);
    forall i ensures Used(t', i) == Used(t, i) {
    }
  }

  /** A change of a directory is allowed just when it stays complete and, if it is used, with its account. */
  lemma UpdateAllowed(t: Tables, pending: set<int>, id: int, row: Homedir)
    requires Constrained(t) && Collected(t, pending) && id in t.homedirs
    ensures var t' := t.(homedirs := t.homedirs[id := row]);
            && (Constrained(t') <==> Complete(row) && (t.homedirs[id].account == row.account || !Used(t, id)))
            && Collected(t', pending)
  {
    var t' := t.(homedirs := t.homedirs[id := row]);
    forall i ensures Used(t', i) == Used(t, i) {
    }
    assert Constrained(t') ==> Complete(t'.homedirs[id]);
    if Used(t, id) {
      var s :| s in t.homes && t.homes[s] == id;
      assert t'.homes[s] == id;
    }
  }

  /** Setting a home is allowed just when the directory is the account's own. */
  lemma SetAllowed(t: Tables, slot: Slot, id: int)
    requires Constrained(t) && id in t.homedirs
    ensures Constrained(t.(homes := t.homes[slot := id])) <==> t.homedirs[id].account == slot.account
  {
    var t' := t.(homes := t.homes[slot := id]);
    assert t'.homes[slot] == id;
  }

  /**
   It is enough to look for other uses of the old directory by the account
   itself: no other account can have any.
   */
  lemma SetKeepsCollected(t: Tables, pending: set<int>, slot: Slot, id: int)
    requires Constrained(t) && Collected(t, pending)
    requires id in t.homedirs && t.homedirs[id].account == slot.account
    ensures Constrained(HomeSet(t, slot, id)) && Collected(HomeSet(t, slot, id), pending - {id})
    ensures slot in t.homes && t.homes[slot] != id ==>
              var t1 := t.(homes := t.homes[slot := id]);
              (UsedBy(t1, t.homes[slot], slot.account) <==> Used(t1, t.homes[slot]))
  {
    var t1, t' := t.(homes := t.homes[slot := id]), HomeSet(t, slot, id);
    SetAllowed(t, slot, id);
    assert t1.homes[slot] == id;
    forall i | i in t'.homedirs ensures Used(t', i) <==> i !in pending - {id} {
      if i != id && Used(t, i) {
        var s :| s in t.homes && t.homes[s] == i;
        if s == slot {
          assert i in t'.homedirs ==> UsedBy(t1, i, slot.account);
        } else {
          assert t1.homes[s] == i;
        }
      }
    }
    forall s | s in t'.homes ensures t'.homes[s] in t'.homedirs {
      if s != slot && slot in t.homes && t.homes[s] == t.homes[slot] {
        assert t1.homes[s] == t.homes[slot] && s.account == slot.account;
      }
    }
  }

  lemma HomeSetByUse(t: Tables, slot: Slot, id: int)
    ensures var t' := t.(homes := t.homes[slot := id]);
            HomeSet(t, slot, id) == if slot in t.homes && t.homes[slot] != id && !UsedBy(t', t.homes[slot], slot.account)
                                    then t'.(homedirs := t'.homedirs - {t.homes[slot]}) else t'
  {
  }

  lemma HomeClearedByUse(t: Tables, slot: Slot)
    ensures var t' := t.(homes := t.homes - {slot});
            HomeCleared(t, slot) == if slot in t.homes && !Used(t', t.homes[slot])
                                    then t'.(homedirs := t'.homedirs - {t.homes[slot]}) else t'
  {
  }

  lemma ClearKeepsCollected(t: Tables, pending: set<int>, slot: Slot)
    requires Constrained(t) && Collected(t, pending)
    ensures Constrained(HomeCleared(t, slot)) && Collected(HomeCleared(t, slot), pending)
  {
    var t1, t' := t.(homes := t.homes - {slot}), HomeCleared(t, slot);
    forall i | i in t'.homedirs ensures Used(t', i) <==> i !in pending {
      if Used(t, i) {
        var s :| s in t.homes && t.homes[s] == i;
        assert s != slot ==> s in t1.homes && t1.homes[s] == i;
      }
    }
    forall s | s in t'.homes ensures t'.homes[s] in t'.homedirs {
      assert t1.homes[s] == t.homes[s];
    }
  }

  /** Deleting an account's homes takes its directories along, also those not set yet. */
  lemma DeleteKeepsCollected(t: Tables, pending: set<int>, account: int)
    requires Constrained(t) && Collected(t, pending)
    ensures Constrained(WithoutHomes(t, account)) && Constrained(WithoutAccount(t, account))
    ensures Collected(WithoutAccount(t, account), set id | id in pending && t.homedirs[id].account != account)
  {
    var t' := WithoutAccount(t, account);
    forall id | id in t'.homedirs ensures Used(t', id) == Used(t, id) {
      if Used(t, id) {
        var s :| s in t.homes && t.homes[s] == id;
        assert s in t'.homes && t'.homes[s] == id;
      }
    }
  }
}
