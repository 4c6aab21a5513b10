/**
 * How lookupPath turns a command name into the path it hands to execvp:
 * the absolute-path and `exit` short cuts, then a first-match search of the
 * directory table.  The access(F_OK | X_OK) test is the set `executable` of
 * paths that exist and may be executed.
 */
module PathSearch {
  import opened Wrappers
  import opened Strsep
  import opened Vectors

  /** The path lookupPath tries for `name` in directory `dir`: dir, a slash, the name. */
  function Candidate(dir: String, name: String): String
  {
    dir + "/" + name
  }

  /**
   * The directories the lookup loop runs over: the slots of `dir` before the
   * first NULL, at most `maxPaths` of them.
   */
  function LiveDirs(dir: seq<Option<String>>, maxPaths: nat): (r: seq<String>)
    ensures |r| <= maxPaths
  {
    UntilNull(dir[..Min(maxPaths, |dir|)])
  }

  /** The first directory, in table order, whose candidate passes the access check. */
  function Search(dirs: seq<String>, name: String, executable: set<String>): Option<String>
  {
    if dirs == [] then None
    else if Candidate(dirs[0], name) in executable then Some(Candidate(dirs[0], name))
    else Search(dirs[1..], name, executable)
  }

  /** The resolution rules of lookupPath, in their priority order. */
  function Resolve(name: String, table: seq<String>, executable: set<String>): Option<String>
  {
    if |name| > 0 && name[0] == '/' then Some(name)
    else if name == "exit" then Some(name)
    else Search(table, name, executable)
  }

  /** Search answers with the least index whose candidate passes: earlier directories shadow later ones. */
  lemma {:induction false} SearchFirstMatch(dirs: seq<String>, name: String, executable: set<String>, i: nat)
    requires i < |dirs| && Candidate(dirs[i], name) in executable
    requires forall j :: 0 <= j < i ==> Candidate(dirs[j], name) !in executable
    ensures Search(dirs, name, executable) == Some(Candidate(dirs[i], name))
  {
    if i > 0 {
      assert Candidate(dirs[0], name) !in executable;
      SearchFirstMatch(dirs[1..], name, executable, i - 1);
    }
  }

  /** Search fails exactly when no candidate passes. */
  lemma {:induction false} SearchNone(dirs: seq<String>, name: String, executable: set<String>)
    ensures Search(dirs, name, executable).None? <==>
      forall j :: 0 <= j < |dirs| ==> Candidate(dirs[j], name) !in executable
  {
    if dirs != [] {
      SearchNone(dirs[1..], name, executable);
      assert forall j :: 1 <= j < |dirs| ==> dirs[j] == dirs[1..][j - 1];
    }
  }

  /** Whatever Search returns is the candidate of some table directory that passes. */
  lemma {:induction false} SearchSound(dirs: seq<String>, name: String, executable: set<String>)
    requires Search(dirs, name, executable).Some?
    ensures exists i :: 0 <= i < |dirs| && Search(dirs, name, executable) == Some(Candidate(dirs[i], name))
    ensures Search(dirs, name, executable).value in executable
  {
    if Candidate(dirs[0], name) !in executable {
      SearchSound(dirs[1..], name, executable);
      var i :| 0 <= i < |dirs[1..]| && Search(dirs[1..], name, executable) == Some(Candidate(dirs[1..][i], name));
      assert dirs[1..][i] == dirs[i + 1];
    }
  }

  /** Splitting the table in two: the front part is searched first. */
  lemma {:induction false} SearchAppend(a: seq<String>, b: seq<String>, name: String, executable: set<String>)
    ensures Search(a + b, name, executable) ==
      if Search(a, name, executable).Some? then Search(a, name, executable) else Search(b, name, executable)
  {
    if a == [] {
      assert a + b == b;
    } else {
      assert (a + b)[0] == a[0];
      assert (a + b)[1..] == a[1..] + b;
      SearchAppend(a[1..], b, name, executable);
    }
  }

  /** A name that starts with a slash resolves to itself, whatever the table and the file system. */
  lemma ResolveAbsolute(name: String, table: seq<String>, executable: set<String>)
    requires |name| > 0 && name[0] == '/'
    ensures Resolve(name, table, executable) == Some(name)
  {
  }

  /** The resolution is the literal "exit" exactly when the name is "exit". */
  lemma ResolveExit(name: String, table: seq<String>, executable: set<String>)
    ensures Resolve(name, table, executable) == Some("exit") <==> name == "exit"
  {
    if !(|name| > 0 && name[0] == '/') && name != "exit" && Search(table, name, executable).Some? {
      SearchSound(table, name, executable);
      var i :| 0 <= i < |table| && Search(table, name, executable) == Some(Candidate(table[i], name));
      var p := Candidate(table[i], name);
      assert p[|table[i]|] == '/';
      assert forall k :: 0 <= k < |"exit"| ==> "exit"[k] != '/';
    }
  }

  /** A bare name that is not "exit" resolves to a table directory's candidate that passes the access check, or to nothing. */
  lemma ResolveBareName(name: String, table: seq<String>, executable: set<String>)
    requires !(|name| > 0 && name[0] == '/') && name != "exit"
    ensures Resolve(name, table, executable).None? <==>
      forall j :: 0 <= j < |table| ==> Candidate(table[j], name) !in executable
    ensures Resolve(name, table, executable).Some? ==>
      Resolve(name, table, executable).value in executable &&
      exists i :: 0 <= i < |table| && Resolve(name, table, executable) == Some(Candidate(table[i], name))
  {
    SearchNone(table, name, executable);
    if Search(table, name, executable).Some? {
      SearchSound(table, name, executable);
    }
  }

  /** With PATH=/a:/b and foo in both, /a/foo wins. */
  lemma ResolveTieBreak(executable: set<String>)
    requires "/a/foo" in executable && "/b/foo" in executable
    ensures Resolve("foo", ["/a", "/b"], executable) == Some("/a/foo")
  {
    assert Candidate("/a", "foo") == "/a/foo";
    SearchFirstMatch(["/a", "/b"], "foo", executable, 0);
  }
}
