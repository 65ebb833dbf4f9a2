/** The search path (src/project.c:25-26, 47-117): the directories held in
    path_dirs/path_count, replaced wholesale by the path builtin, and the
    lookup of a command name in them.  Resolve states what find_executable
    returns; access(p, X_OK) == 0 is the oracle executable(p). */
module Path {
  import opened CString

  /** The directory search of lines 105-116 from the i-th directory on: the
      first dir + "/" + name that is executable. */
  function SearchFrom(dirs: seq<string>, i: nat, name: string, executable: string -> bool): Option<string>
    requires i <= |dirs|
    decreases |dirs| - i
  {
    if i == |dirs| then None
    else if executable(dirs[i] + "/" + name) then Some(dirs[i] + "/" + name)
    else SearchFrom(dirs, i + 1, name, executable)
  }

  /** find_executable: a name holding '/' is used as it is, when executable,
      with no search; any other name is searched for in dirs, in order. */
  function Resolve(dirs: seq<string>, name: string, executable: string -> bool): Option<string> {
    if '/' in name then (if executable(name) then Some(name) else None)
    else SearchFrom(dirs, 0, name, executable)
  }

  /** The search from i finds the first executable candidate at or after i. */
  lemma {:induction false} SearchFromFirst(dirs: seq<string>, i: nat, name: string, executable: string -> bool)
    requires i <= |dirs|
    ensures SearchFrom(dirs, i, name, executable).Some? <==>
      exists k :: i <= k < |dirs| && executable(dirs[k] + "/" + name)
    ensures forall k :: (i <= k < |dirs| && executable(dirs[k] + "/" + name) &&
      (forall m :: i <= m < k ==> !executable(dirs[m] + "/" + name))) ==>
        SearchFrom(dirs, i, name, executable) == Some(dirs[k] + "/" + name)
    ensures SearchFrom(dirs, i, name, executable).Some? ==>
      exists k :: i <= k < |dirs| && SearchFrom(dirs, i, name, executable) == Some(dirs[k] + "/" + name) &&
        executable(dirs[k] + "/" + name) && forall m :: i <= m < k ==> !executable(dirs[m] + "/" + name)
    decreases |dirs| - i
  {
    if i < |dirs| {
      SearchFromFirst(dirs, i + 1, name, executable);
      if !executable(dirs[i] + "/" + name) {
        var r := SearchFrom(dirs, i + 1, name, executable);
        if r.Some? {
          var k :| i + 1 <= k < |dirs| && r == Some(dirs[k] + "/" + name) &&
            executable(dirs[k] + "/" + name) && forall m :: i + 1 <= m < k ==> !executable(dirs[m] + "/" + name);
          assert forall m :: i <= m < k ==> !executable(dirs[m] + "/" + name);
        }
      }
    }
  }

  /** A name without '/' resolves to dir + "/" + name for the first
      directory, in list order, where that is executable, and to nothing
      when there is none (in particular for an empty list). */
  lemma ResolveFirstHit(dirs: seq<string>, name: string, executable: string -> bool, k: nat)
    requires '/' !in name && k < |dirs| && executable(dirs[k] + "/" + name)
    requires forall m :: 0 <= m < k ==> !executable(dirs[m] + "/" + name)
    ensures Resolve(dirs, name, executable) == Some(dirs[k] + "/" + name)
  {
    SearchFromFirst(dirs, 0, name, executable);
  }

  /** A name without '/' resolves to nothing exactly when no directory
      holds an executable of that name. */
  lemma ResolveNone(dirs: seq<string>, name: string, executable: string -> bool)
    requires '/' !in name
    ensures Resolve(dirs, name, executable) == None <==>
      forall k :: 0 <= k < |dirs| ==> !executable(dirs[k] + "/" + name)
  {
    SearchFromFirst(dirs, 0, name, executable);
  }

  /** Whatever is resolved is executable, and a found name without '/' is
      one of the candidates. */
  lemma ResolveSound(dirs: seq<string>, name: string, executable: string -> bool)
    requires Resolve(dirs, name, executable).Some?
    ensures executable(Resolve(dirs, name, executable).value)
    ensures '/' !in name ==> exists k :: 0 <= k < |dirs| && Resolve(dirs, name, executable) == Some(dirs[k] + "/" + name)
  {
    if '/' !in name {
      SearchFromFirst(dirs, 0, name, executable);
    }
  }

  /** A name holding '/' is not searched for: the directories do not
      matter. */
  lemma ResolveLiteral(dirs1: seq<string>, dirs2: seq<string>, name: string, executable: string -> bool)
    requires '/' in name
    ensures Resolve(dirs1, name, executable) == Resolve(dirs2, name, executable)
    ensures Resolve(dirs1, name, executable) == if executable(name) then Some(name) else None
  {
  }

  /** path_dirs and path_count: the directories searched, in order. */
  class PathTable {
    var dirs: seq<string>

    /** init_path (lines 47-60): the search path is "/bin" alone. */
    constructor ()
      ensures dirs == ["/bin"]
    {
      dirs := ["/bin"];
    }

    /** update_path (lines 63-93): the old list is dropped and the new one
        copied element by element; with no directories the list is empty. */
    method Update(newDirs: seq<string>)
      modifies this
      ensures dirs == newDirs
    {
      dirs := [];
      if |newDirs| == 0 {
        return;
      }
      var copy: seq<string> := [];
      for i := 0 to |newDirs|
        invariant copy == newDirs[..i]
      {
        copy := copy + [newDirs[i]];
      }
      dirs := copy;
    }

    /** find_executable (lines 96-117), searching this path. */
    method FindExecutable(name: string, executable: string -> bool) returns (r: Option<string>)
      ensures r == Resolve(dirs, name, executable)
    {
      var i := 0;
      while i < |name|
        invariant i <= |name| && '/' !in name[..i]
      {
        if name[i] == '/' {
          assert name[i] in name;
          r := if executable(name) then Some(name) else None;
          return;
        }
        i := i + 1;
      }
      assert name[..i] == name;
      for k := 0 to |dirs|
        invariant SearchFrom(dirs, 0, name, executable) == SearchFrom(dirs, k, name, executable)
      {
        var full := dirs[k] + "/" + name;
        if executable(full) {
          return Some(full);
        }
      }
      r := None;
    }
  }
}
