/**
 * Path arithmetic over the working directory: the folder that holds a file,
 * and the effect of removing a folder tree (shutil.rmtree) on the folder and
 * file names that remain.
 */
module Files {

  /** The folder part of a path: what precedes its last '/', or "" (the working directory) when it has none. */
  function DirName(path: string): string
    decreases |path|
  {
    if path == [] then []
    else if path[|path| - 1] == '/' then path[..|path| - 1]
    else DirName(path[..|path| - 1])
  }

  /** A name without '/' placed in a folder lives in that folder. */
  lemma {:induction false} DirNameOfChild(folder: string, name: string)
    requires '/' !in name
    ensures DirName(folder + "/" + name) == folder
    decreases |name|
  {
    var path := folder + "/" + name;
    if name == [] {
      assert path[..|path| - 1] == folder;
    } else {
      assert path[|path| - 1] == name[|name| - 1];
      assert path[..|path| - 1] == folder + "/" + name[..|name| - 1];
      assert '/' !in name[..|name| - 1];
      DirNameOfChild(folder, name[..|name| - 1]);
    }
  }

  /** path names something inside folder (at any depth). */
  predicate IsUnder(path: string, folder: string) {
    |folder| < |path| && path[..|folder| + 1] == folder + "/"
  }

  /** Folder names left after removing the tree rooted at name. */
  function RemoveFolders(folders: set<string>, name: string): (r: set<string>)
    ensures r <= folders
    ensures name !in r
    ensures forall f :: f in folders && f != name && !IsUnder(f, name) ==> f in r
    ensures forall f :: f in r ==> !IsUnder(f, name)
  {
    set f | f in folders && f != name && !IsUnder(f, name)
  }

  /** Adding the root of a tree does not change what is left once the tree is removed. */
  lemma RemoveFoldersAdded(folders: set<string>, name: string)
    ensures RemoveFolders(folders + {name}, name) == RemoveFolders(folders, name)
  {
    var a, b := RemoveFolders(folders + {name}, name), RemoveFolders(folders, name);
    assert forall f :: f in a ==> f in b;
  }

  /** Files left, with their contents, after removing the tree rooted at name. */
  function RemoveFiles(files: map<string, string>, name: string): (r: map<string, string>)
    ensures r.Keys <= files.Keys
    ensures forall p :: p in files && !IsUnder(p, name) ==> p in r && r[p] == files[p]
    ensures forall p :: p in r ==> !IsUnder(p, name)
  {
    map p | p in files && !IsUnder(p, name) :: files[p]
  }

  /** Writing a file inside a tree does not change what is left once the tree is removed. */
  lemma RemoveFilesWritten(files: map<string, string>, name: string, path: string, text: string)
    requires IsUnder(path, name)
    ensures RemoveFiles(files[path := text], name) == RemoveFiles(files, name)
  {
    var a, b := RemoveFiles(files[path := text], name), RemoveFiles(files, name);
    assert a.Keys == b.Keys;
    assert forall p :: p in a ==> a[p] == b[p];
  }
}
