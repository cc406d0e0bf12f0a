/** What follows for the user from a push that did not apply, and which files and lines the stack looks at. */
module StackLaws {
  import opened Text
  import opened PatchEngine
  import opened PatchOutcome
  import opened QuiltFiles
  import opened QuiltHeaders
  import opened QuiltStack

  /** A patch forced on has to be refreshed first: nothing is pushed on it, and it is not popped unless forced. */
  lemma ForcedNeedsRefresh(q: QuiltState, st: Stack, name: string, content: string, opts: PatchOptions, leaveRejects: bool,
                           amount: Amount, series: seq<string>)
    requires PatchedBy(content, opts, st.files).0 != 0 && opts.force
    ensures var (code, st') := PushResult(st, name, content, opts, leaveRejects);
            && code == 1 && st'.applied == st.applied + [name] && st'.files == PatchedBy(content, opts, st.files).1
            && PushTarget(amount, st', series).0 == 1 && !q.Removable(st', name)
  {
    hide PatchedBy, TargetsOf, BackedUp;
  }

  /** A patch that does not apply and is not forced leaves the stack as it was, and its rejects only if
      they are asked for. */
  lemma UndoneLeaves(st: Stack, name: string, content: string, opts: PatchOptions, leaveRejects: bool)
    requires PatchedBy(content, opts, st.files).0 != 0 && !opts.force
    ensures var (code, st') := PushResult(st, name, content, opts, leaveRejects);
            && code == 1 && st'.applied == st.applied && st'.backups == st.backups && st'.needsRefresh == st.needsRefresh
            && (forall f :: f in TargetsOf(content, opts.stripLevel) ==>
                  if leaveRejects && f + ".rej" !in TargetsOf(content, opts.stripLevel)
                  then SameAt(PatchedBy(content, opts, st.files).1, st'.files, f + ".rej")
                  else !leaveRejects ==> f + ".rej" !in st'.files)
  {
    hide PatchedBy, TargetsOf;
  }

  // ----- Hidden files -----

  lemma NoDirectory(base: string)
    requires '/' !in base
    ensures BaseName(base) == base
  {
    assert base[0..] == base;
    NotFound(base, '/', 0);
  }

  // The name behind a first directory.
  lemma BehindSlash(first: string, rest: string)
    requires '/' !in first
    ensures BaseName(first + "/" + rest) == BaseName(rest)
  {
    var path := first + "/" + rest;
    assert path[0..|first|] == first;
    FoundAt(path, '/', 0, |first|);
    assert path[|first| + 1..] == rest;
  }

  lemma {:induction false} BaseNameOf(dir: string, base: string)
    requires '/' !in base
    ensures BaseName(dir + "/" + base) == base
    decreases |dir|
  {
    hide BaseName;
    NoDirectory(base);
    var cut := FindChar(dir, '/', 0);
    FindsFirst(dir, '/', 0);
    if cut < 0 {
      assert dir[0..] == dir;
      BehindSlash(dir, base);
    } else {
      assert dir[0..cut] == dir[..cut];
      assert dir + "/" + base == dir[..cut] + "/" + (dir[cut + 1..] + "/" + base);
      BehindSlash(dir[..cut], dir[cut + 1..] + "/" + base);
      BaseNameOf(dir[cut + 1..], base);
    }
  }

  /** Hidden are the files whose name, without the directories, begins with a dot. */
  lemma HiddenMeans(dir: string, base: string)
    requires '/' !in base && base != ""
    ensures Hidden(base) <==> base[0] == '.'
    ensures Hidden(dir + "/" + base) <==> base[0] == '.'
  {
    hide BaseName;
    NoDirectory(base);
    BaseNameOf(dir, base);
  }

  // ----- The files a patch names -----

  /** Stripping a name takes off one component after the other, as far as there are any. */
  lemma ComponentOff(dir: string, rest: string, strip: nat)
    requires '/' !in dir
    ensures StripComponents(dir + "/" + rest, strip + 1) == StripComponents(rest, strip)
    ensures rest != "" ==> StripComponents(rest, 0) == rest
  {
    var path := dir + "/" + rest;
    assert path[0..|dir|] == dir;
    FoundAt(path, '/', 0, |dir|);
    assert path[|dir| + 1..] == rest;
  }

  lemma {:induction false} LastComponentStays(name: string, strip: nat)
    requires '/' !in name
    ensures StripComponents(name, strip) == name
    decreases strip
  {
    if strip > 0 && name != "" {
      assert name[0..] == name;
      NotFound(name, '/', 0);
      LastComponentStays(name, strip - 1);
    }
  }

  // ----- Where the header of a patch ends -----

  lemma Starts(prefix: string, rest: string)
    ensures StartsWith(prefix + rest, prefix)
  {
    assert (prefix + rest)[..|prefix|] == prefix;
  }

  /** A diff starts at one of four kinds of lines. */
  lemma DiffStarts(rest: string)
    ensures StartsDiff("Index:" + rest) && StartsDiff("--- " + rest) && StartsDiff("diff " + rest) && StartsDiff("===" + rest)
  {
    Starts("Index:", rest);
    Starts("--- ", rest);
    Starts("diff ", rest);
    Starts("===", rest);
    hide StartsWith;
  }
}
