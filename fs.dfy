/** The part of the file system the daemon touches, as one mutable object:
    the set of existing directories and the text of every regular file, keyed
    by its full path. The methods are the `std::fs` calls the daemon makes. */
module Fs {
  import opened Wrappers

  /** A path that starts at the root directory. */
  predicate IsAbsolute(path: string) {
    |path| > 0 && path[0] == '/'
  }

  /** `PathBuf::join`: an absolute name replaces the directory; a relative
      one is appended, with a `/` inserted unless the directory is empty or
      already ends with one. */
  function Join(dir: string, name: string): (path: string)
    ensures IsAbsolute(name) ==> path == name
    ensures !IsAbsolute(name) ==> path == dir + name || path == dir + "/" + name
  {
    if IsAbsolute(name) then name
    else if dir == [] || dir[|dir| - 1] == '/' then dir + name else dir + "/" + name
  }

  /** Joining onto the same directory keeps different names apart, as long
      as both are relative or both absolute. */
  lemma JoinInjective(dir: string, a: string, b: string)
    requires IsAbsolute(a) == IsAbsolute(b)
    requires Join(dir, a) == Join(dir, b)
    ensures a == b
  {
    if !IsAbsolute(a) {
      var prefix := if dir == [] || dir[|dir| - 1] == '/' then dir else dir + "/";
      assert Join(dir, a) == prefix + a && Join(dir, b) == prefix + b;
      assert (prefix + a)[|prefix|..] == a;
      assert (prefix + b)[|prefix|..] == b;
    }
  }

  class FileSystem {
    var dirs: set<string>
    var files: map<string, string>

    constructor (dirs: set<string>, files: map<string, string>)
      ensures this.dirs == dirs && this.files == files
    {
      this.dirs := dirs;
      this.files := files;
    }

    /** `fs::read_to_string`: `None` when there is no such file. */
    function ReadToString(path: string): (r: Option<string>)
      reads this
      ensures r.Some? <==> path in files
      ensures r.Some? ==> r.value == files[path]
    {
      if path in files then Some(files[path]) else None
    }

    /** `fs::create_dir_all`. */
    method CreateDirAll(dir: string)
      modifies this
      ensures dirs == old(dirs) + {dir} && files == old(files)
    {
      dirs := dirs + {dir};
    }

    /** `File::create` followed by writing `content`, or `fs::write`: creates or
        truncates `dir/name`; fails when `dir` does not exist. */
    method Create(dir: string, name: string, content: string) returns (ok: bool)
      modifies this
      ensures ok <==> dir in old(dirs)
      ensures dirs == old(dirs)
      ensures files == if ok then old(files)[Join(dir, name) := content] else old(files)
    {
      ok := dir in dirs;
      if ok {
        files := files[Join(dir, name) := content];
      }
    }

    /** `fs::remove_file`: fails when the file does not exist. */
    method RemoveFile(path: string) returns (ok: bool)
      modifies this
      ensures ok <==> path in old(files)
      ensures dirs == old(dirs)
      ensures files == if ok then old(files) - {path} else old(files)
    {
      ok := path in files;
      if ok {
        files := files - {path};
      }
    }

    /** `OpenOptions::new().append(true).create(true).open` followed by a
        write of `text`: fails when `dir` does not exist. */
    method Append(dir: string, name: string, text: string) returns (ok: bool)
      modifies this
      ensures ok <==> dir in old(dirs)
      ensures dirs == old(dirs)
      ensures var path := Join(dir, name);
        files == if ok then old(files)[path := (if path in old(files) then old(files)[path] else "") + text]
                 else old(files)
    {
      ok := dir in dirs;
      if ok {
        var path := Join(dir, name);
        var before := if path in files then files[path] else "";
        files := files[path := before + text];
      }
    }
  }
}
