/** The circular list of a VM's threads (omrlinkedlist.h, OMR_VM.cpp, OMR_VMThread.cpp). */
module VMThreadList {
  import opened Wrappers
  import opened VMThreads

  function NextIndex(i: nat, n: nat): (j: nat)
    requires i < n
    ensures j < n
  {
    if i + 1 == n then 0 else i + 1
  }

  function PreviousIndex(i: nat, n: nat): (j: nat)
    requires i < n
    ensures j < n
  {
    if i == 0 then n - 1 else i - 1
  }

  // The nodes reached from `root` are those of `s`, and the last is linked with the first.
  ghost predicate Circular(root: VMThread?, s: seq<VMThread>)
    reads s`linkNext, s`linkPrevious, s`freed
  {
    && root == (if s == [] then null else s[0])
    && NoRepeats(s)
    && forall i :: 0 <= i < |s| ==> LinkedAt(s, i)
  }

  ghost predicate LinkedAt(s: seq<VMThread>, i: nat)
    requires i < |s|
    reads s`linkNext, s`linkPrevious, s`freed
  {
    && s[i].linkNext == s[NextIndex(i, |s|)]
    && s[i].linkPrevious == s[PreviousIndex(i, |s|)]
    && !s[i].freed
  }

  // The next node of a walk that starts at the root; a freed node must not be asked.
  function NextDo(root: VMThread?, element: VMThread): VMThread?
    requires !element.freed
    reads element`linkNext, element`freed
  {
    if root == element.linkNext then null else element.linkNext
  }

  class VM {
    const maximumThreadCount: nat
    var vmThreadList: VMThread?
    var internalThreadCount: int
    var languageThreadCount: int
    var tls: map<OSThread, VMThread>
    ghost var threads: seq<VMThread>

    ghost predicate Valid()
      reads this, threads`linkNext, threads`linkPrevious, threads`freed
    {
      Circular(vmThreadList, threads) && WellFormed(State(), maximumThreadCount)
    }

    ghost function State(): Attached
      reads this
    {
      Attached(threads, internalThreadCount, languageThreadCount, tls)
    }

    constructor (maximumThreadCount: nat)
      ensures Valid() && this.maximumThreadCount == maximumThreadCount && State() == NOBODY
    {
      this.maximumThreadCount := maximumThreadCount;
      vmThreadList, internalThreadCount, languageThreadCount := null, 0, 0;
      tls, threads := map[], [];
    }

    method AddLast(element: VMThread)
      requires Circular(vmThreadList, threads) && element !in threads && !element.freed
      modifies this`vmThreadList, this`threads
      modifies element`linkNext, element`linkPrevious, threads`linkNext, threads`linkPrevious
      ensures threads == old(threads) + [element] && Circular(vmThreadList, threads)
    {
      if vmThreadList == null {
        element.linkPrevious := element;
        element.linkNext := element;
        vmThreadList := element;
      } else {
        var root := vmThreadList;
        assert LinkedAt(threads, 0);
        element.linkNext := root;
        element.linkPrevious := root.linkPrevious;
        element.linkPrevious.linkNext := element;
        root.linkPrevious := element;
      }
      threads := threads + [element];
      forall i | 0 <= i < |threads| ensures LinkedAt(threads, i) {
        if i < |threads| - 1 {
          assert old(LinkedAt(threads, i));
          assert threads[i] == old(threads)[i];
        }
        if i == |threads| - 1 && i > 0 {
          assert old(LinkedAt(threads, 0));
        }
      }
    }

    method Remove(element: VMThread)
      requires Circular(vmThreadList, threads) && element in threads
      modifies this`vmThreadList, this`threads, threads`linkNext, threads`linkPrevious
      ensures threads == Without(old(threads), element) && Circular(vmThreadList, threads)
    {
      ghost var k :| 0 <= k < |threads| && threads[k] == element;
      ghost var all, n := threads, |threads|;
      assert LinkedAt(all, k);
      if element == vmThreadList {
        if element.linkNext == element {
          vmThreadList := null;
        } else {
          vmThreadList := element.linkNext;
        }
      }
      element.linkPrevious.linkNext := element.linkNext;
      element.linkNext.linkPrevious := element.linkPrevious;
      WithoutIs(threads, k);
      threads := threads[..k] + threads[k + 1..];
      forall j | 0 <= j < n ensures Skips(all, k, j) {
        assert old(LinkedAt(all, j));
        SkipsByLinks(all, k, j);
      }
      StillLinked(all, k);
    }

    method AttachThread(vmthread: VMThread) returns (rc: Code)
      requires Valid() && vmthread !in threads && !vmthread.freed
      modifies this, vmthread`linkNext, vmthread`linkPrevious, threads`linkNext, threads`linkPrevious
      ensures Valid() && State() == Attach(old(State()), vmthread, maximumThreadCount)
      ensures rc == if Accepts(old(State()), vmthread, maximumThreadCount) then NoError else MaximumThreadCountExceeded
    {
      rc := NoError;
      ghost var attached := Attach(State(), vmthread, maximumThreadCount);
      AttachKeepsWellFormed(State(), vmthread, maximumThreadCount);
      if vmthread.isInternal || maximumThreadCount == 0 || languageThreadCount < maximumThreadCount {
        AddLast(vmthread);
        if vmthread.isInternal {
          internalThreadCount := internalThreadCount + 1;
        } else {
          languageThreadCount := languageThreadCount + 1;
        }
      } else {
        rc := MaximumThreadCountExceeded;
      }
      tls := tls[vmthread.osThread := vmthread];
      assert State() == attached;
    }

    method DetachThread(vmthread: VMThread)
      requires Valid() && vmthread in threads
      modifies this, threads`linkNext, threads`linkPrevious
      ensures Valid() && State() == Detach(old(State()), vmthread)
    {
      ghost var detached := Detach(State(), vmthread);
      DetachKeepsWellFormed(State(), vmthread, maximumThreadCount);
      WithoutIsPart(threads, vmthread);
      if vmthread.isInternal {
        internalThreadCount := internalThreadCount - 1;
      } else {
        languageThreadCount := languageThreadCount - 1;
      }
      Remove(vmthread);
      tls := tls - {vmthread.osThread};
      assert State() == detached;
    }

    method AttachVMThread(vmthread: VMThread, native: bool) returns (rc: Code)
      requires Valid() && !vmthread.freed && (vmthread.attachCount == 0 ==> vmthread !in threads)
      modifies this, vmthread`attachCount
      modifies vmthread`linkNext, vmthread`linkPrevious, threads`linkNext, threads`linkPrevious
      ensures Valid()
      ensures Outcome(State(), vmthread.attachCount, rc)
           == AttachToVM(old(State()), vmthread, old(vmthread.attachCount), native, maximumThreadCount)
    {
      rc := NoError;
      if vmthread.attachCount > 0 {
        vmthread.attachCount := vmthread.attachCount + 1;
      } else if native {
        rc := AttachThread(vmthread);
        vmthread.attachCount := vmthread.attachCount + 1;
      } else {
        rc := FailedToAttachNativeThread;
      }
    }

    method DetachVMThread(vmthread: VMThread, native: bool) returns (rc: Code)
      requires Valid() && (vmthread.attachCount == 1 ==> vmthread in threads)
      modifies this, vmthread`attachCount, threads`linkNext, threads`linkPrevious
      ensures Valid()
      ensures Outcome(State(), vmthread.attachCount, rc)
           == DetachFromVM(old(State()), vmthread, old(vmthread.attachCount), native)
    {
      rc := NoError;
      if vmthread.attachCount > 1 {
        vmthread.attachCount := vmthread.attachCount - 1;
      } else if vmthread.attachCount == 1 {
        if native {
          DetachThread(vmthread);
          vmthread.attachCount := vmthread.attachCount - 1;
        } else {
          rc := FailedToAttachNativeThread;
        }
      } else {
        rc := ThreadNotAttached;
      }
    }

    // `memory` and `monitor` tell whether the new thread and its monitor can be allocated.
    method FirstAttach(self: OSThread, memory: bool, monitor: bool) returns (rc: Code, vmThread: VMThread?)
      requires Valid()
      modifies this, threads`linkNext, threads`linkPrevious
      ensures Valid()
      ensures rc == if !memory then OutOfNativeMemory else if !monitor then FailedToAllocateMonitor else NoError
      ensures rc != NoError ==> vmThread == null && State() == old(State())
      ensures rc == NoError ==>
                && vmThread != null && fresh(vmThread) && vmThread.osThread == self && vmThread.isInternal
                && vmThread.attachCount == 1
                && State() == Attach(old(State()), vmThread, maximumThreadCount)
                && threads == old(threads) + [vmThread]
    {
      rc, vmThread := OutOfNativeMemory, null;
      if memory {
        rc := FailedToAllocateMonitor;
        if monitor {
          var tempThread := new VMThread(self, true);
          rc := AttachThread(tempThread);
          if rc == NoError {
            tempThread.attachCount := 1;
            vmThread := tempThread;
          }
        }
      }
    }

    method LastDetach(vmThread: VMThread)
      requires Valid() && vmThread in threads
      modifies this, vmThread`freed, threads`linkNext, threads`linkPrevious
      ensures Valid() && State() == Detach(old(State()), vmThread) && vmThread.freed
    {
      NoneFreed(vmThreadList, threads);
      WithoutIsPart(threads, vmThread);
      DetachThread(vmThread);
      Free(vmThread);
    }

    method Free(vmThread: VMThread)
      requires !vmThread.freed
      modifies vmThread`freed
      ensures vmThread.freed
    {
      vmThread.freed := true;
    }

    // The child of a fork keeps the thread that forked and frees the others, walking the
    // list while it frees.
    method FreeOthers(self: OSThread) returns (currentVMThread: VMThread?)
      requires Circular(vmThreadList, threads)
      modifies threads`freed
      ensures forall i :: 0 <= i < |threads| ==> (threads[i].freed <==> threads[i].osThread != self)
      ensures currentVMThread == Found(LastOn(threads, self))
    {
      ghost var k := 0;
      NoneFreed(vmThreadList, threads);
      currentVMThread := null;
      var walkThread := vmThreadList;
      while walkThread != null
        invariant k <= |threads| && walkThread == if k < |threads| then threads[k] else null
        invariant forall i :: 0 <= i < |threads| ==>
          (threads[i].freed <==> i < k && threads[i].osThread != self)
        invariant currentVMThread == Found(LastOn(threads[..k], self))
        decreases |threads| - k
      {
        assert old(LinkedAt(threads, k));
        var nextThread := NextDo(vmThreadList, walkThread);
        if walkThread.osThread == self {
          currentVMThread := walkThread;
        } else {
          Free(walkThread);
        }
        walkThread := nextThread;
        assert threads[..k + 1][..k] == threads[..k];
        k := k + 1;
      }
      assert threads[..k] == threads;
    }

    method PostForkChild(self: OSThread)
      requires Valid() && exists t <- threads :: t.osThread == self
      modifies this, threads`linkNext, threads`linkPrevious, threads`freed
      ensures Valid()
      ensures State() == Kept(old(State()), self)
      ensures forall t <- old(threads) :: t.freed <==> t.osThread != self
    {
      var currentVMThread := FreeOthers(self);
      LastOnFound(threads, self);
      KeptIsWellFormed(State(), self, maximumThreadCount);
      ghost var kept := Kept(State(), self);
      vmThreadList, threads := null, [];
      if currentVMThread.isInternal {
        internalThreadCount, languageThreadCount := 1, 0;
      } else {
        internalThreadCount, languageThreadCount := 0, 1;
      }
      AddLast(currentVMThread);
      assert threads == [currentVMThread];
      assert State() == kept;
    }
  }

  function Found(t: Option<VMThread>): VMThread? {
    match t
    case None => null
    case Some(thread) => thread
  }

  lemma WithoutIsPart(s: seq<VMThread>, t: VMThread)
    ensures forall u <- Without(s, t) :: u in s && u != t
  {
    forall u | u in Without(s, t) ensures u in s && u != t {
      WithoutMembers(s, t, u);
    }
  }

  lemma NoneFreed(root: VMThread?, s: seq<VMThread>)
    requires Circular(root, s)
    ensures forall i :: 0 <= i < |s| ==> !s[i].freed
  {
    forall i | 0 <= i < |s| ensures !s[i].freed {
      assert LinkedAt(s, i);
    }
  }

  // `j` is linked as before, except that its link skips `k`.
  ghost predicate Skips(s: seq<VMThread>, k: nat, j: nat)
    requires k < |s| && j < |s|
    reads s`linkNext, s`linkPrevious, s`freed
  {
    && s[j].linkNext == s[NextIndex(if j == PreviousIndex(k, |s|) then k else j, |s|)]
    && s[j].linkPrevious == s[PreviousIndex(if j == NextIndex(k, |s|) then k else j, |s|)]
    && !s[j].freed
  }

  // Only the neighbours of the node have other links than before.
  lemma SkipsByLinks(s: seq<VMThread>, k: nat, j: nat)
    requires k < |s| && j < |s| && NoRepeats(s) && !s[j].freed
    requires s[j].linkNext == if s[j] == s[PreviousIndex(k, |s|)] then s[NextIndex(k, |s|)] else s[NextIndex(j, |s|)]
    requires s[j].linkPrevious == if s[j] == s[NextIndex(k, |s|)] then s[PreviousIndex(k, |s|)] else s[PreviousIndex(j, |s|)]
    ensures Skips(s, k, j)
  {
  }

  // Once the neighbours of a node are linked with each other, the rest is still circular.
  lemma StillLinked(s: seq<VMThread>, k: nat)
    requires k < |s| && forall j :: 0 <= j < |s| ==> Skips(s, k, j)
    ensures var rest := s[..k] + s[k + 1..]; forall i :: 0 <= i < |rest| ==> LinkedAt(rest, i)
  {
    var rest := s[..k] + s[k + 1..];
    forall i | 0 <= i < |rest| ensures LinkedAt(rest, i) {
      assert Skips(s, k, if i < k then i else i + 1);
    }
  }
}
