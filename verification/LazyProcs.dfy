/**
DLL and Proc as objects (bindings/runtime/win32/loader.go): fields filled once under their once and
only read afterwards. Each method is proved to be what the protocol of LazyLoad does for a goroutine that runs
undisturbed; the operating system's answers are parameters.
*/
module LazyProcs {
  import opened Options
  import opened Names
  import opened LazyLoad

  class Dll {
    const name: Name
    var done: bool
    var handle: int
    var err: Option<ProcError>
    ghost var loads: nat

    constructor (name: Name)
      ensures AsState() == DllState(name, NotStarted, 0, None, 0)
    {
      this.name := name;
      done, handle, err, loads := false, 0, None, 0;
    }

    ghost function AsState(): DllState
      reads this
    {
      DllState(name, if done then Done else NotStarted, handle, err, loads)
    }

    /** DLL.load, with loadSystemDLL's answer */
    method Load(os: Answers) returns (failure: Option<ProcError>)
      modifies this
      ensures AsState() == LoadedDll(old(AsState()), os)
      ensures failure == err
      ensures !old(done) ==> handle == os.handle && (err.Some? <==> os.handle == 0)
      ensures old(done) ==> handle == old(handle) && err == old(err)
    {
      if !done {
        if os.handle == 0 {
          handle, err := 0, Some(ProcError(name, "", os.loadErrno));
        } else {
          handle, err := os.handle, None;
        }
        loads := loads + 1;
        done := true;
      }
      failure := err;
    }
  }

  class Proc {
    const dll: Dll
    const name: Name
    var done: bool
    var addr: int
    var err: Option<ProcError>
    ghost var lookups: seq<int>

    constructor (dll: Dll, name: Name, d: int)
      ensures this.dll == dll && AsState(d) == ProcState(d, name, NotStarted, 0, None, [])
    {
      this.dll, this.name := dll, name;
      done, addr, err, lookups := false, 0, None, [];
    }

    /** `d` is the DLL's number in the protocol's state. */
    ghost function AsState(d: int): ProcState
      reads this
    {
      ProcState(d, name, if done then Done else NotStarted, addr, err, lookups)
    }

    /** Proc.Find */
    method Find(os: Answers, d: int) returns (failure: Option<ProcError>)
      modifies this, dll
      ensures AsState(d) == FoundProc(old(AsState(d)), LoadedDll(old(dll.AsState()), os), os)
      ensures dll.AsState() == DllAfter(old(AsState(d)), old(dll.AsState()), os)
      ensures failure == err
    {
      if !done {
        var missing := dll.Load(os);
        if missing.Some? {
          err := missing;
        } else {
          lookups := lookups + [dll.handle];
          if os.found {
            addr := os.addr;
          } else {
            err := Some(ProcError(dll.name, name, os.lookupErrno));
          }
        }
        done := true;
      }
      failure := err;
    }

    /** Proc.Addr; Failed where it panics with that error. */
    method Addr(os: Answers, d: int) returns (r: Outcome)
      modifies this, dll
      ensures AsState(d) == FoundProc(old(AsState(d)), LoadedDll(old(dll.AsState()), os), os)
      ensures dll.AsState() == DllAfter(old(AsState(d)), old(dll.AsState()), os)
      ensures r == if err.Some? then Failed(err.value) else Resolved(addr)
      ensures !old(done) && old(err).None? && err.None? ==> os.found && addr == os.addr
      ensures old(done) ==> addr == old(addr) && err == old(err) && dll.handle == old(dll.handle)
    {
      var failure := Find(os, d);
      r := if failure.Some? then Failed(failure.value) else Resolved(addr);
    }
  }
}
