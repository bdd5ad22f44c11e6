/**
 * The JSON log files. The text of a file is abstracted to what the readers
 * distinguish: no file, an empty file, text that does not parse, a JSON value
 * that is not an array, or an array of entries. Writing a file replaces its
 * content with an array (the `dump(2)` layout is not modelled).
 */
module JsonLog {

  datatype FileContent<T> = Missing | Empty | Unparseable | NotArray | Array(entries: seq<T>)

  /** What the read-modify-write append starts from: the existing array, or [] for anything else. */
  function AppendBase<T>(c: FileContent<T>): seq<T>
  {
    if c.Array? then c.entries else []
  }

  /** The content the append writes back: the base with the new entry pushed at the end. */
  function Appended<T>(c: FileContent<T>, e: T): (r: FileContent<T>)
    ensures r.Array? && |r.entries| == |AppendBase(c)| + 1
    ensures r.entries[..|AppendBase(c)|] == AppendBase(c)
    ensures r.entries[|AppendBase(c)|] == e
    ensures c.Array? ==> r.entries[..|c.entries|] == c.entries
    ensures !c.Array? ==> r == Array([e])
  {
    Array(AppendBase(c) + [e])
  }

  /** Several appends in order. */
  function AppendedAll<T>(c: FileContent<T>, es: seq<T>): FileContent<T>
    decreases |es|
  {
    if es == [] then c else AppendedAll(Appended(c, es[0]), es[1..])
  }

  /** N appends to a log add exactly those N entries, in order, after the earlier ones. */
  lemma {:induction false} AppendedAllKeepsEverything<T>(c: FileContent<T>, es: seq<T>)
    requires es != []
    ensures AppendedAll(c, es) == Array(AppendBase(c) + es)
    decreases |es|
  {
    if |es| == 1 {
      assert AppendedAll(Appended(c, es[0]), es[1..]) == Appended(c, es[0]);
    } else {
      var c' := Appended(c, es[0]);
      AppendedAllKeepsEverything(c', es[1..]);
      assert AppendBase(c') + es[1..] == AppendBase(c) + es;
    }
  }

  /** The self-healing check run when a log's owner starts: only an array is left alone. */
  function Initialised<T>(c: FileContent<T>): (r: FileContent<T>)
    ensures r.Array?
    ensures r == c <==> c.Array?
    ensures !c.Array? ==> r == Array([])
  {
    if c.Array? then c else Array([])
  }

  /** Initialising twice is initialising once. */
  lemma InitialisedIdempotent<T>(c: FileContent<T>)
    ensures Initialised(Initialised(c)) == Initialised(c)
  {
  }

  /** Healing a file first does not change what an append produces. */
  lemma AppendAfterInitialise<T>(c: FileContent<T>, e: T)
    ensures Appended(Initialised(c), e) == Appended(c, e)
  {
  }

  /** The content of a file in a directory (Missing when there is no such file). */
  function Lookup<T>(files: map<string, FileContent<T>>, name: string): FileContent<T>
  {
    if name in files then files[name] else Missing
  }

  /**
   * What opening a file for reading sees: a file listed in `unreadable` exists
   * but cannot be opened, and the readers then go on exactly as for a missing one.
   */
  function Read<T>(files: map<string, FileContent<T>>, unreadable: set<string>, name: string): FileContent<T>
  {
    if name in unreadable then Missing else Lookup(files, name)
  }

  /** Writing content to a file, which fails and leaves everything unchanged when the file cannot be opened for writing. */
  function Write<T>(files: map<string, FileContent<T>>, readOnly: set<string>, name: string, c: FileContent<T>): map<string, FileContent<T>>
  {
    if name in readOnly then files else files[name := c]
  }

  /** The constructor check on one file: rewritten to [] unless it can be read and holds an array (and is writable). */
  function Healed<T>(files: map<string, FileContent<T>>, readOnly: set<string>, unreadable: set<string>, name: string): map<string, FileContent<T>>
  {
    if Read(files, unreadable, name).Array? then files else Write(files, readOnly, name, Array([]))
  }

  /** A readable file that already holds an array is left exactly as it is; otherwise it ends up holding [] unless it is read-only. */
  lemma HealedContent<T>(files: map<string, FileContent<T>>, readOnly: set<string>, unreadable: set<string>, name: string, n: string)
    ensures Lookup(Healed(files, readOnly, unreadable, name), n)
      == if n == name && n !in readOnly then Initialised(Read(files, unreadable, n)) else Lookup(files, n)
  {
  }

  /** Running the constructor check on a file twice leaves the directory as running it once. */
  lemma HealedIdempotent<T>(files: map<string, FileContent<T>>, readOnly: set<string>, unreadable: set<string>, name: string)
    ensures Healed(Healed(files, readOnly, unreadable, name), readOnly, unreadable, name) == Healed(files, readOnly, unreadable, name)
  {
  }

  /** A file that was just cleared is left alone by the constructor check. */
  lemma HealedAfterCleared<T>(files: map<string, FileContent<T>>, readOnly: set<string>, unreadable: set<string>, names: seq<string>, name: string)
    requires name in names
    ensures Healed(Cleared(files, readOnly, names), readOnly, unreadable, name) == Cleared(files, readOnly, names)
  {
    ClearedContent(files, readOnly, names, name);
  }

  /** clearJsonFiles: writes "[]" to every listed file in turn. */
  function Cleared<T>(files: map<string, FileContent<T>>, readOnly: set<string>, names: seq<string>): map<string, FileContent<T>>
    decreases |names|
  {
    if names == [] then files else Cleared(Write(files, readOnly, names[0], Array([])), readOnly, names[1..])
  }

  /** After clearing, a listed writable file holds exactly [] (existing or not before); every other file is unchanged. */
  lemma {:induction false} ClearedContent<T>(files: map<string, FileContent<T>>, readOnly: set<string>, names: seq<string>, n: string)
    ensures Lookup(Cleared(files, readOnly, names), n)
      == if n in names && n !in readOnly then Array([]) else Lookup(files, n)
    decreases |names|
  {
    if names != [] {
      ClearedContent(Write(files, readOnly, names[0], Array([])), readOnly, names[1..], n);
      assert n in names <==> n == names[0] || n in names[1..];
    }
  }

  /** Healing a listed file before clearing makes no difference to any file's content. */
  lemma ClearedAbsorbsHealed<T>(files: map<string, FileContent<T>>, readOnly: set<string>, unreadable: set<string>, names: seq<string>, name: string, n: string)
    requires name in names
    ensures Lookup(Cleared(Healed(files, readOnly, unreadable, name), readOnly, names), n) == Lookup(Cleared(files, readOnly, names), n)
  {
    ClearedContent(Healed(files, readOnly, unreadable, name), readOnly, names, n);
    ClearedContent(files, readOnly, names, n);
    HealedContent(files, readOnly, unreadable, name, n);
  }

  /**
   * A log that exists but cannot be opened for reading loses its entries: an
   * append writes back the new entry alone, and the constructor check rewrites
   * it to [] whatever it held.
   */
  lemma UnreadableLogRestarts<T>(files: map<string, FileContent<T>>, readOnly: set<string>, unreadable: set<string>, name: string, e: T)
    requires name in unreadable && name !in readOnly
    ensures Lookup(Write(files, readOnly, name, Appended(Read(files, unreadable, name), e)), name) == Array([e])
    ensures Lookup(Healed(files, readOnly, unreadable, name), name) == Array([])
  {
  }

  /** Clearing twice is clearing once. */
  lemma ClearedIdempotent<T>(files: map<string, FileContent<T>>, readOnly: set<string>, names: seq<string>, n: string)
    ensures Lookup(Cleared(Cleared(files, readOnly, names), readOnly, names), n)
      == Lookup(Cleared(files, readOnly, names), n)
  {
    ClearedContent(files, readOnly, names, n);
    ClearedContent(Cleared(files, readOnly, names), readOnly, names, n);
  }

  /**
   * The working directory holding the log files. `readOnly` names the files
   * that cannot be opened for writing, so every write to them fails;
   * `unreadable` names those that cannot be opened for reading.
   */
  class FileStore<T> {
    var files: map<string, FileContent<T>>
    const readOnly: set<string>
    const unreadable: set<string>

    constructor (files: map<string, FileContent<T>>, readOnly: set<string>, unreadable: set<string>)
      ensures this.files == files && this.readOnly == readOnly && this.unreadable == unreadable
    {
      this.files := files;
      this.readOnly := readOnly;
      this.unreadable := unreadable;
    }

    function Content(name: string): FileContent<T>
      reads this
    {
      Lookup(files, name)
    }

    /** QFile::exists. */
    predicate Exists(name: string)
      reads this
    {
      Content(name) != Missing
    }

    /** What reading the file gives: its content, or Missing when it cannot be opened. */
    function Opened(name: string): FileContent<T>
      reads this
    {
      Read(files, unreadable, name)
    }

    /**
     * logSignalToJson / logToJson: read the file, fall back to [] unless it
     * can be read and holds an array, push the entry, write the whole array back.
     */
    method Append(name: string, e: T)
      modifies this
      ensures files == Write(old(files), readOnly, name, Appended(old(Opened(name)), e))
    {
      var base := if Opened(name).Array? then Opened(name).entries else [];
      var entries := base + [e];
      if name !in readOnly {
        files := files[name := Array(entries)];
      }
    }

    /**
     * The check in each receiver's constructor: unless the file can be read and
     * holds a JSON array it is rewritten to "[]". `healed` tells whether it was rewritten.
     */
    method Initialise(name: string) returns (healed: bool)
      modifies this
      ensures healed <==> !old(Opened(name)).Array? && name !in readOnly
      ensures files == Healed(old(files), readOnly, unreadable, name)
    {
      var needsInit := !Opened(name).Array?;
      healed := false;
      if needsInit && name !in readOnly {
        files := files[name := Array([])];
        healed := true;
      }
    }

    /** clearJsonFiles: every listed file is truncated to "[]", created if absent. */
    method Clear(names: seq<string>)
      modifies this
      ensures files == Cleared(old(files), readOnly, names)
    {
      var i := 0;
      while i < |names|
        invariant 0 <= i <= |names|
        invariant Cleared(files, readOnly, names[i..]) == Cleared(old(files), readOnly, names)
      {
        assert names[i..][1..] == names[i + 1..];
        if names[i] !in readOnly {
          files := files[names[i] := Array([])];
        }
        i := i + 1;
      }
    }
  }
}
