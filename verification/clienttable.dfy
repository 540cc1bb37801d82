/** The critical sections of server.c over the slot arrays, each proved to be a
    run of the steps of the concurrent model. */
module ClientTables {
  import opened Users
  import opened Requests
  import opened Slots

  class ClientTable {
    const fds: array<int>
    const roles: array<int>
    var numClients: int
    var closed: seq<int>  // the descriptors passed to close, in order

    ghost predicate Valid() reads this {
      fds.Length == MAX_CLIENTS && roles.Length == MAX_CLIENTS && fds != roles
    }

    /** The arrays are those of a state of the concurrent model. */
    ghost predicate Shows(s: Sys) reads this, fds, roles {
      fds[..] == s.fds && roles[..] == s.roles && numClients == s.numClients
    }

    /** init_server's client tracking */
    constructor ()
      ensures Valid() && fresh(fds) && fresh(roles) && closed == []
      ensures forall t :: Shows(Initial(t))
    {
      fds := new int[MAX_CLIENTS](_ => -1);
      roles := new int[MAX_CLIENTS](_ => ROLE_GUEST);
      numClients := 0;
      closed := [];
      new;
      assert fds[..] == seq(MAX_CLIENTS, _ => -1);
      assert roles[..] == seq(MAX_CLIENTS, _ => ROLE_GUEST);
    }

    /** The search for a free slot. */
    method FindFree() returns (i: nat)
      requires Valid()
      ensures i == FirstFree(fds[..])
    {
      i := 0;
      while i < MAX_CLIENTS && fds[i] != -1
        invariant i <= MAX_CLIENTS
        invariant forall j :: 0 <= j < i ==> fds[j] != -1
      {
        i := i + 1;
      }
    }

    /** server_process with an accepted descriptor, from pthread_mutex_lock to
        pthread_mutex_unlock; created is the outcome of pthread_create. */
    method Admit(fd: nat, created: bool, ghost env: Env, ghost s: Sys)
      requires Valid() && Shape(s) && Shows(s) && s.main == Checking(fd)
      modifies this`numClients, this`closed, fds, roles
      ensures Valid()
      ensures var r := Run(env, s, [Check, Spawn(created), Count]);
              && Shows(r) && r.main.Releasing?
              && (r.closes == s.closes ==> closed == old(closed))
              && (r.closes != s.closes ==> closed == old(closed) + [fd] && r.closes == s.closes[fd := s.closes[fd] + 1])
    {
      assert s.closes[fd := s.closes[fd] + 1][fd] != s.closes[fd];
      hide Run, Shape, FirstFree;
      AdmitRun(env, s, fd, created);
      if numClients < MAX_CLIENTS {
        var i := FindFree();
        if i < MAX_CLIENTS {
          fds[i] := fd;
          roles[i] := ROLE_GUEST;
          if !created {
            closed := closed + [fd];
            fds[i] := -1;
          } else {
            numClients := numClients + 1;
          }
        }
      } else {
        closed := closed + [fd];
      }
    }

    /** The end of client_handler, from pthread_mutex_lock to pthread_mutex_unlock. */
    method Cleanup(index: nat, ghost env: Env, ghost s: Sys, ghost w: nat)
      requires Valid() && Shape(s) && Shows(s) && w < |s.workers|
      requires s.workers[w].slot == index && s.workers[w].pc.Cleaning?
      modifies this`numClients, this`closed, fds, roles
      ensures Valid()
      ensures var r := Do(env, s, Slots.Cleanup(w));
              && Shows(r) && r.workers[w].pc.Unlocking?
              && closed == if s.fds[index] >= 0 then old(closed) + [s.fds[index]] else old(closed)
    {
      if fds[index] >= 0 {
        closed := closed + [fds[index]];
        fds[index] := -1;
        roles[index] := ROLE_GUEST;
        numClients := numClients - 1;
      }
    }
  }

  /** What the three steps of the critical section come to. */
  lemma AdmitRun(env: Env, s: Sys, fd: nat, created: bool)
    requires Shape(s) && s.main == Checking(fd)
    ensures var r := Run(env, s, [Check, Spawn(created), Count]);
            var i := FirstFree(s.fds);
            && r.main.Releasing?
            && (s.numClients >= MAX_CLIENTS || i == MAX_CLIENTS ==>
                  r.fds == s.fds && r.roles == s.roles && r.numClients == s.numClients)
            && (s.numClients < MAX_CLIENTS && i < MAX_CLIENTS ==>
                  r.roles == s.roles[i := ROLE_GUEST] &&
                  r.fds == s.fds[i := if created then fd else -1] &&
                  r.numClients == s.numClients + (if created then 1 else 0))
            && r.closes == if s.numClients >= MAX_CLIENTS || (i < MAX_CLIENTS && !created)
                           then s.closes[fd := s.closes[fd] + 1] else s.closes
  {
    hide FirstFree, WorkerStep, Run;
    ThreeSteps(env, s, Check, Spawn(created), Count);
  }

  lemma ThreeSteps(env: Env, s: Sys, a: Step, b: Step, c: Step)
    requires Shape(s)
    ensures Run(env, s, [a, b, c]) == Do(env, Do(env, Do(env, s, a), b), c)
  {
    hide Do, Shape;
    var s1 := Do(env, s, a);
    var s2 := Do(env, s1, b);
    assert [a, b, c][1..] == [b, c] && [b, c][1..] == [c] && [c][1..] == [];
    assert Run(env, s2, [c]) == Run(env, Do(env, s2, c), []);
    assert Run(env, s1, [b, c]) == Run(env, s2, [c]);
  }
}
