/** `resolve_file_path`: the fallback search that turns a path written in a
    flasher-args document into a path that exists. The `os.path` functions
    and the file-system test are injected through `PathEnv`, so every
    property below holds whatever the file system contains. */
module Paths {
  import opened Base
  import opened Json

  /** The host's path operations: `os.path.exists`, `abspath`, `normpath`,
      `join`, `basename` and `dirname`. */
  datatype PathEnv = PathEnv(
    fileExists: string -> bool,
    abspath: string -> string,
    normpath: string -> string,
    join: (string, string) -> string,
    basename: string -> string,
    dirname: string -> string)

  /** The conventional build-output directory searched last. */
  const BuildDir: string := "build"

  /** The five places tried, in order: the path as given (made absolute), the
      path under the document's directory, the file name alone under the
      document's directory, the path under `build/`, and the file name alone
      under `build/`. */
  function SearchPaths(rel: string, configDir: string, env: PathEnv): (r: seq<string>)
    ensures |r| == 5
  {
    [ env.abspath(rel),
      env.normpath(env.join(configDir, rel)),
      env.join(configDir, env.basename(rel)),
      env.abspath(env.join(BuildDir, rel)),
      env.abspath(env.join(BuildDir, env.basename(rel))) ]
  }

  /** `paths[k]` exists and no earlier path does. */
  predicate FirstHitAt(paths: seq<string>, env: PathEnv, k: int) {
    0 <= k < |paths| && env.fileExists(paths[k])
    && forall j :: 0 <= j < k ==> !env.fileExists(paths[j])
  }

  /** The first path of `paths` that exists. */
  function FirstExisting(paths: seq<string>, env: PathEnv): Option<string> {
    if paths == [] then None
    else if env.fileExists(paths[0]) then Some(paths[0])
    else FirstExisting(paths[1..], env)
  }

  /** The search finds nothing exactly when no candidate exists; otherwise it
      returns the first candidate that exists. */
  lemma {:induction false} FirstExistingSpec(paths: seq<string>, env: PathEnv)
    ensures FirstExisting(paths, env).None? <==> forall j :: 0 <= j < |paths| ==> !env.fileExists(paths[j])
    ensures forall k :: FirstHitAt(paths, env, k) ==> FirstExisting(paths, env) == Some(paths[k])
  {
    if paths != [] && !env.fileExists(paths[0]) {
      FirstExistingSpec(paths[1..], env);
      assert forall k :: FirstHitAt(paths, env, k) ==> FirstHitAt(paths[1..], env, k - 1) by {
        forall k | FirstHitAt(paths, env, k) ensures FirstHitAt(paths[1..], env, k - 1) {
          assert forall j :: 0 <= j < k - 1 ==> paths[1..][j] == paths[j + 1];
        }
      }
      assert (forall j :: 0 <= j < |paths| ==> !env.fileExists(paths[j]))
         <==> (forall j :: 0 <= j < |paths[1..]| ==> !env.fileExists(paths[1..][j])) by {
        assert forall j :: 0 < j < |paths| ==> paths[j] == paths[1..][j - 1];
      }
    }
  }

  /** `resolve_file_path(rel_path, config_dir)`: `None` for an empty or
      non-string path; otherwise the normalized form of the first search path
      that exists (see `ResolveFirstHit`). */
  function ResolveFilePath(rel: Json, configDir: string, env: PathEnv): (r: Option<string>)
    ensures !(rel.Str? && rel.s != []) ==> r.None?
  {
    if !Truthy(rel) || !rel.Str? then None
    else
      match FirstExisting(SearchPaths(rel.s, configDir, env), env)
      case Some(p) => Some(env.normpath(p))
      case None => None
  }

  /** For a non-empty string path: `None` exactly when none of the five search
      paths exists, otherwise the normalized first one that does. */
  lemma ResolveFirstHit(rel: string, configDir: string, env: PathEnv)
    requires rel != []
    ensures var ps := SearchPaths(rel, configDir, env);
      && (ResolveFilePath(Str(rel), configDir, env).None? <==> forall j :: 0 <= j < 5 ==> !env.fileExists(ps[j]))
      && forall k :: FirstHitAt(ps, env, k) ==> ResolveFilePath(Str(rel), configDir, env) == Some(env.normpath(ps[k]))
  {
    FirstExistingSpec(SearchPaths(rel, configDir, env), env);
  }

  /** An existing path as given always wins over the copy next to the
      document, which wins over the file name alone next to the document. */
  lemma PreferenceOrder(rel: string, configDir: string, env: PathEnv)
    requires rel != []
    ensures env.fileExists(env.abspath(rel)) ==>
              ResolveFilePath(Str(rel), configDir, env) == Some(env.normpath(env.abspath(rel)))
    ensures !env.fileExists(env.abspath(rel))
            && env.fileExists(env.normpath(env.join(configDir, rel))) ==>
              ResolveFilePath(Str(rel), configDir, env)
                == Some(env.normpath(env.normpath(env.join(configDir, rel))))
    ensures !env.fileExists(env.abspath(rel))
            && !env.fileExists(env.normpath(env.join(configDir, rel)))
            && env.fileExists(env.join(configDir, env.basename(rel))) ==>
              ResolveFilePath(Str(rel), configDir, env)
                == Some(env.normpath(env.join(configDir, env.basename(rel))))
  {
    var ps := SearchPaths(rel, configDir, env);
    ResolveFirstHit(rel, configDir, env);
    if env.fileExists(ps[0]) {
      assert FirstHitAt(ps, env, 0);
    } else if env.fileExists(ps[1]) {
      assert FirstHitAt(ps, env, 1);
    } else if env.fileExists(ps[2]) {
      assert FirstHitAt(ps, env, 2);
    }
  }
}
