# git-projectdir in Dafny

`getgitproject_main` finds the project a file or directory belongs to. A
project is a directory that has a `.git` entry. The function works in three
steps:

1. It resolves the name lexically. The name is joined onto the logical
   working directory `PWD` with `os.path.join`, so an absolute name replaces
   `PWD`. The result goes through `os.path.abspath`, which normalises it.
   With no name it uses `os.getcwd()`, the physical working directory. That
   path is absolute, so it replaces `PWD` too: a call without a name ignores
   `PWD`, and a working directory reached through a symlink is seen by its
   physical path.
2. If the resolved path is a regular file, it moves to the file's parent.
3. It walks upward. While the path differs from its `dirname`, it returns
   the path if `path/.git` exists, and otherwise moves to the `dirname`.
   When the walk reaches the root it raises `ValueError`.

The model keeps paths as strings, as the Python code does:

- `StrOps` holds the string operations that `os.path` is built from.
- `PosixPath` defines `join`, `normpath`, `abspath` and `dirname` over those
  strings.
- `PosixPath` also gives normalised absolute paths a component view. Such a
  path is `Render(cs)`: a `/` followed by the valid components `cs` joined
  with `/`. The root is `Render([])`, and `Comps` is the inverse of `Render`.
  The lemmas move between the two views. For example, `dirname` drops the
  last component, and normalising `p/..` drops the last component of `p`.
- `GetGitProject` models the function itself:
  - `Resolve` is step 1 and `StartDir` is step 2.
  - `Search` is a recursive reference for the walk, stated over components.
  - `Find` is the whole function as one pure function.
  - `FindProject` and `WalkUp` follow the source statement by statement,
    including the `while` loop. They are proved equal to `Find`.

The environment and the filesystem are parameters:

- `Env(pwd, cwd)` holds the `PWD` variable and the result of `os.getcwd()`.
- `FileSystem(files, entries)` holds the paths `os.path.isfile` accepts and
  the paths `os.path.exists` accepts.
- `os.path.exists(os.path.join(d, '.git'))` becomes
  `Join(d, ".git") in entries`.
- Some lemmas need a filesystem a real one could be. `WellFormed` says that no
  existing path lies directly inside a regular file.
- The raised `ValueError` becomes `Failure(NotInProject(filename))`, where
  `filename` is the path the message reports. `Message` builds the message
  text.

Two behaviours of the code are easy to miss, and the model follows the code
as written:

- The loop test (`dirname(p) != p`) runs before the `.git` test, so `/` is
  never checked. A `.git` at the root is never returned. `RootMarkerIgnored`
  shows that when no directory other than `/` has a marker, every lookup
  fails, whether or not `/.git` exists.
- The error is built from the loop variable after the loop. It therefore
  always reports `/`, not the path the search started from. See the last
  `ensures` of `Find` and `FailureMessage`.

## Model

| member | source | states |
|---|---|---|
| `PosixPath.Join` | getgitproject_func.py:27 | `os.path.join`: an absolute second path replaces the first. Otherwise the result starts with the first path and ends with the second, and it is absolute when either input is. |
| `PosixPath.NormPath` | getgitproject_func.py:27 | `os.path.normpath` of an absolute path is normalised: no `.`, `..` or empty component and no trailing `/`. |
| `PosixPath.AbsPath` | getgitproject_func.py:27 | `os.path.abspath` against an absolute working directory always gives a normalised absolute path. |
| `PosixPath.NormPathIdempotent` | getgitproject_func.py:27 | Normalising an already normalised path leaves it unchanged. |
| `PosixPath.NormPathJoin` | getgitproject_func.py:27 | Joining one piece onto a normalised path and normalising: `""` and `.` change nothing, `..` gives the parent and stays at the root, and any other name is appended as a component. |
| `PosixPath.NormPathJoinAll` | getgitproject_func.py:27 | Normalising any relative name joined onto a normalised path applies the one-piece rule to each piece of the name in turn, starting from the path's components. A name made only of valid components is appended as it is. |
| `PosixPath.RenderNormalized` | getgitproject_func.py:27 | A list of valid components renders to a normalised path that parses back to the same list. |
| `PosixPath.CompsRender` | getgitproject_func.py:27 | A normalised path is the rendering of its own valid components, so the two views are inverse. |
| `PosixPath.JoinRender` | getgitproject_func.py:37 | `os.path.join(d, '.git')` on a normalised `d` is `d` with one more component. This holds for `/` too, where it gives `/.git` with no doubled slash. |
| `PosixPath.Dirname` | getgitproject_func.py:36-40 | `os.path.dirname` returns a prefix of its argument, so it never lengthens the path. |
| `PosixPath.DirnameRender` | getgitproject_func.py:36-40 | `dirname` of a normalised path drops exactly its last component, and the root is its own `dirname`. |
| `PosixPath.DirnameNormalized` | getgitproject_func.py:36 | `dirname` keeps a path normalised. A normalised path equals its `dirname` if and only if it is `/`, which is what ends the loop. |
| `GetGitProject.Resolve` | getgitproject_func.py:17-27 | The resolved path is always absolute and normalised, whatever the name, `PWD` and working directory are. |
| `GetGitProject.FindNoneIsCwd` | getgitproject_func.py:17-18 | Giving no name produces the same result as giving the working directory explicitly, whatever `PWD` is. |
| `GetGitProject.ResolveAbsolute` | getgitproject_func.py:27 | An absolute name ignores `PWD` and the working directory. It is only normalised, and a normalised one is kept as it is. |
| `GetGitProject.ResolveUsesPwd` | getgitproject_func.py:23-27 | For a given name and an absolute `PWD`, the physical working directory has no influence, so a relative name is resolved along the symlinked logical path. This does not hold for a call without a name; see `FindNoneIsCwd`. |
| `GetGitProject.ResolveRelative` | getgitproject_func.py:27 | A relative one-piece name is resolved against `PWD`: `.` gives `PWD`, `..` gives its parent (`/` at the root), and a name gives `PWD` plus that component. |
| `GetGitProject.ResolveRelativePath` | getgitproject_func.py:27 | Any relative name is resolved against `PWD` by applying `normpath`'s step to each piece, starting from `PWD`'s components. For example, `a/../b` gives `PWD/b`. A name made only of valid components gives `PWD` followed by those components. |
| `GetGitProject.StartDir` | getgitproject_func.py:29-31 | The search starts at the parent of the resolved path when that path is a regular file. Otherwise it starts at the resolved path unchanged, with no existence check. |
| `GetGitProject.Search` | getgitproject_func.py:36-40 | It finds a result exactly when some ancestor-or-self other than the root has a marker. The result is the nearest one: an ancestor-or-self with a marker, and nothing between it and the start has one. |
| `GetGitProject.NearestProjectUnique` | getgitproject_func.py:36-40 | A start directory has at most one nearest project. |
| `GetGitProject.Find` | getgitproject_func.py:15-42 | On success it returns a normalised ancestor-or-self of the start directory that has a marker, with no marker in between. It fails exactly when no non-root ancestor-or-self has a marker, and the error then reports `/`. |
| `GetGitProject.WalkUp` | getgitproject_func.py:34-42 | The `while` loop returns the nearest marked directory, or fails reporting its final value `/`. It terminates, and it makes at most one `.git` test per component of the start directory: exactly one per component on failure, and one per directory visited on success. |
| `GetGitProject.FindProject` | getgitproject_func.py:15-42 | The statement-by-statement function equals `Find` and keeps the bound on `.git` tests from `WalkUp`. |
| `GetGitProject.MarkerPath` | getgitproject_func.py:37 | The marker path of a normalised directory has that directory as its `dirname`. |
| `GetGitProject.SelfIsProject` | getgitproject_func.py:36-38 | A non-root directory with a marker is returned unchanged. |
| `GetGitProject.FindIdempotent` | getgitproject_func.py:36-38 | Looking up the project of a found project returns that project, under any environment. |
| `GetGitProject.FileInsideProject` | getgitproject_func.py:30-40 | A regular file below a project directory belongs to that directory when no directory in between has a marker. |
| `GetGitProject.RootMarkerIgnored` | getgitproject_func.py:35-42 | When no normalised directory other than `/` has a marker, every lookup fails and the error reports `/`. This holds whether or not `/.git` exists. |
| `GetGitProject.FailureMessage` | getgitproject_func.py:42 | The failure message is always `Filename is not contained within a git project. Filename: /.`, whatever name was looked up. |

## Left out

- `PosixPath.NormPath`: Python's POSIX `normpath` keeps a leading `//`, but only when there are exactly two slashes. The model treats `//` like `/`. This differs only for names or a `PWD` that begin with exactly two slashes.
- The name is a string. The `str(filename)` conversion of a `pathlib.Path` at getgitproject_func.py:21 is not modelled, because the path object's own normalisation is library behaviour.
- An unset `PWD` makes `os.path.join` raise `TypeError`. That is an environment failure, not logic, so `PWD` is always a string here.
- `os.getcwd()` always returns an absolute path. The model therefore requires the `cwd` parameter to be absolute.
- Physical path resolution is not modelled: no symlinks and no `realpath`. The tool is lexical by design. `isfile` and `exists` are set membership of the lexical path, so following a link is part of how those sets are chosen.
- `SelfIsProject` and `FindIdempotent` assume `WellFormed`, which says a regular file has no children. A real filesystem always satisfies this, and without it a "file" could carry a `.git` entry.
- `getgitproject_argparse` (getgitproject_func.py:45-62) and run/getgitproject_argparse.py are command-line glue that parses arguments and prints. Note that `args.filename[0]` passes only the first character of the name.
- `test_getgitproject` (getgitproject_func.py:66-86) and run/test.py are self-tests that start a subprocess. Their checks correspond to `SelfIsProject`, `FileInsideProject` and the failure case of `Find`.
- The kind of the raised exception is not modelled. `ValueError` is a `Failure` carrying the reported path, and `Message` gives its text.
