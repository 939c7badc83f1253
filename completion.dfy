/**
 * The completion store: one `localStorage` entry per task id holding the
 * text "true" or "false", and the rule that turns an entry back into the
 * task's 'completed' marker.
 */
module CompletionStore {

  /** The text `localStorage.setItem` stores for a boolean (JavaScript's String(b)). */
  function StoredText(b: bool): string {
    if b then "true" else "false"
  }

  /** Whether a task counts as completed on load: its entry is exactly "true". */
  function Load(store: map<string, string>, id: string): bool {
    id in store && store[id] == "true"
  }

  /** The store after the change handler records a checkbox state. */
  function Save(store: map<string, string>, id: string, checked: bool): map<string, string> {
    store[id := StoredText(checked)]
  }

  /** Loading after saving gives back exactly the saved checkbox state. */
  lemma LoadAfterSave(store: map<string, string>, id: string, checked: bool)
    ensures Load(Save(store, id, checked), id) == checked
  {
  }

  /** Saving one task's state leaves every other id's entry, and so its loaded state, as it was. */
  lemma SaveKeepsOtherIds(store: map<string, string>, id: string, other: string, checked: bool)
    requires other != id
    ensures other in Save(store, id, checked) <==> other in store
    ensures Load(Save(store, id, checked), other) == Load(store, other)
  {
  }

  /** A task with no entry loads as not completed. */
  lemma AbsentLoadsPending(store: map<string, string>, id: string)
    requires id !in store
    ensures !Load(store, id)
  {
  }

  /**
   * On an entry the script itself wrote, loading and storing are inverse:
   * the loaded flag stores back as the same text.
   */
  lemma LoadInvertsStoredText(store: map<string, string>, id: string)
    requires id in store && (store[id] == "true" || store[id] == "false")
    ensures StoredText(Load(store, id)) == store[id]
  {
  }
}
