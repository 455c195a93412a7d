/** The to-do record and the Bean Validation rules declared on it. */
module Entity {
  import opened Wrappers

  /** A calendar date; the core stores and copies it but never computes with it. */
  type LocalDate = int

  /** A date-time, as a count of nanoseconds from a fixed origin. */
  type LocalDateTime = int

  /** One to-do item. Every reference-typed Java field may be null, hence Option;
      `id` is a primitive long, so an unset id reads as 0. */
  datatype Todo = Todo(
    id: int,
    title: Option<string>,
    description: Option<string>,
    status: Option<string>,
    priority: Option<string>,
    dueDate: Option<LocalDate>,
    createdAt: Option<LocalDateTime>,
    updatedAt: Option<LocalDateTime>)

  const TitleMessage: string := "Please add Title"
  const PriorityMessage: string := "Please Set Priority"

  /** The characters String.trim removes, which is how Hibernate Validator
      decides that a text is blank. */
  predicate IsBlankChar(c: char) {
    c <= ' '
  }

  /** String.trim: drops the blank characters at the front... */
  function TrimStart(s: string): (r: string)
    ensures r == [] <==> forall i :: 0 <= i < |s| ==> IsBlankChar(s[i])
    ensures r != [] ==> !IsBlankChar(r[0])
  {
    if s != [] && IsBlankChar(s[0]) then TrimStart(s[1..]) else s
  }

  /** ...and at the back. */
  function TrimEnd(s: string): (r: string)
    ensures r == [] <==> forall i :: 0 <= i < |s| ==> IsBlankChar(s[i])
  {
    if s != [] && IsBlankChar(s[|s| - 1]) then TrimEnd(s[..|s| - 1]) else s
  }

  function Trim(s: string): string {
    TrimEnd(TrimStart(s))
  }

  /** @NotBlank: not null, and at least one character that trimming keeps. */
  predicate NotBlank(s: Option<string>)
    ensures NotBlank(s) <==> s.Some? && Trim(s.value) != []
  {
    s.Some? && exists i :: 0 <= i < |s.value| && !IsBlankChar(s.value[i])
  }

  /** The two declared constraints; every other field is unconstrained. */
  predicate IsValid(t: Todo)
    ensures IsValid(t) <==> && t.title.Some? && Trim(t.title.value) != []
                            && t.priority.Some? && Trim(t.priority.value) != []
  {
    NotBlank(t.title) && NotBlank(t.priority)
  }

  /** The messages of the constraint violations a record raises. Bean Validation
      reports them as an unordered set. */
  function Violations(t: Todo): (r: set<string>)
    ensures TitleMessage in r <==> !NotBlank(t.title)
    ensures PriorityMessage in r <==> !NotBlank(t.priority)
    ensures r <= {TitleMessage, PriorityMessage}
    ensures r == {} <==> IsValid(t)
  {
    (if NotBlank(t.title) then {} else {TitleMessage})
      + (if NotBlank(t.priority) then {} else {PriorityMessage})
  }

  /** Validity is decided by title and priority alone: description, status,
      dueDate, createdAt, updatedAt and id may hold anything, null included. */
  lemma OnlyTitleAndPriorityConstrained(t: Todo, u: Todo)
    requires t.title == u.title && t.priority == u.priority
    ensures IsValid(t) <==> IsValid(u)
    ensures Violations(t) == Violations(u)
  {
  }

  /** A title that is null, empty or made only of characters trimming drops is
      rejected with "Please add Title", whatever the other fields hold. */
  lemma BlankTitleRejected(t: Todo)
    requires t.title.None? || forall i :: 0 <= i < |t.title.value| ==> IsBlankChar(t.title.value[i])
    ensures TitleMessage in Violations(t) && !IsValid(t)
  {
  }

  /** Every row of a store satisfies the declared constraints. */
  predicate AllValid(m: map<int, Todo>) {
    forall k :: k in m ==> IsValid(m[k])
  }

  /** A non-blank string, in any letter case, is a valid title or priority. */
  lemma NonBlankAccepted(s: string, i: nat)
    requires i < |s| && !IsBlankChar(s[i])
    ensures NotBlank(Some(s))
  {
  }

  /** Priority and status are free strings: "High", "high" and "medium" are
      all accepted as priorities, with or without the optional fields. */
  lemma PriorityIsFreeText(t: Todo)
    requires t.title == Some("Drive to airport")
    requires t.priority in {Some("High"), Some("high"), Some("medium")}
    ensures IsValid(t) && Violations(t) == {}
  {
    NonBlankAccepted(t.title.value, 0);
    NonBlankAccepted(t.priority.value, 0);
  }
}
