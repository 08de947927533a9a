/**
 The declarative parts of a build project: where each source component
 comes from and what each build step runs.
 */
module ProjectTypes {

  /** One source dependency, checked out into `<root>/<name>`. */
  datatype Component = Component(name: string, url: string, revision: string)

  /** One build step: a command and its arguments, run in `directory`
      (relative to the build root) with the step's own environment
      declarations on top of the project's. */
  datatype BuildStep = BuildStep(
    description: string,
    directory: string,
    command: seq<string>,
    env: map<string, string>)
}
