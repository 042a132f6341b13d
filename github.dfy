/**
 * The go-github values the bots read. Fields Go may leave nil are `Option`s and the
 * `Get*` functions follow go-github's nil-safe getters, which return the zero
 * value for a nil field.
 */
module GitHub {
  import opened Wrappers
  import Durations

  datatype Label = Label(name: Option<string>) {
    function GetName(): string { name.GetOr("") }
  }

  /** A nil `*github.User` and a user without login both read as the empty login. */
  datatype User = User(login: Option<string>) {
    function GetLogin(): string { login.GetOr("") }
  }

  /** The repository of an event: its name and owner, each possibly missing. */
  datatype Repository = Repository(name: Option<string>, owner: Option<User>)

  /** An issue as far as the bots look at it; `closedAt` in nanoseconds since the Unix epoch. */
  datatype Issue = Issue(
    number: Option<int>,
    title: Option<string>,
    body: Option<string>,
    state: Option<string>,
    labels: seq<Label>,
    assignees: seq<User>,
    closedAt: Option<int>,
    repositoryURL: Option<string>)
  {
    function GetNumber(): int { number.GetOr(0) }
    function GetTitle(): string { title.GetOr("") }
    function GetBody(): string { body.GetOr("") }
    function GetState(): string { state.GetOr("") }
    function GetClosedAt(): int { closedAt.GetOr(Durations.ZeroTime) }
  }
}
