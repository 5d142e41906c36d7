/** org.habittracker.models.Habit: a mutable record of four private fields,
    shared by the data-access object and the dashboard. */
module Models {
  import opened JavaBase

  class Habit {
    var id: int32
    var name: string
    var completed: bool
    /** null (None) until a calendar event id is stored. */
    var googleEventId: Option<string>

    /** Habit(int id, String name): completed and googleEventId keep their Java defaults. */
    constructor WithIdName(id: int32, name: string)
      ensures this.id == id && this.name == name
      ensures !completed && googleEventId == None
    {
      this.id := id;
      this.name := name;
      completed := false;
      googleEventId := None;
    }

    /** Habit(String name): id keeps the Java default 0. */
    constructor WithName(name: string)
      ensures this.name == name
      ensures id == 0 && !completed && googleEventId == None
    {
      id := 0;
      this.name := name;
      completed := false;
      googleEventId := None;
    }

    /** Habit(int id, String name, boolean completed). */
    constructor WithIdNameCompleted(id: int32, name: string, completed: bool)
      ensures this.id == id && this.name == name && this.completed == completed
      ensures googleEventId == None
    {
      this.id := id;
      this.name := name;
      this.completed := completed;
      googleEventId := None;
    }

    /** Habit(int id, String name, boolean completed, String googleEventId). */
    constructor (id: int32, name: string, completed: bool, googleEventId: Option<string>)
      ensures this.id == id && this.name == name && this.completed == completed
      ensures this.googleEventId == googleEventId
    {
      this.id := id;
      this.name := name;
      this.completed := completed;
      this.googleEventId := googleEventId;
    }

    function GetId(): int32 reads this { id }
    function GetName(): string reads this { name }
    function IsCompleted(): bool reads this { completed }
    function GetGoogleEventId(): Option<string> reads this { googleEventId }

    // Each setter may write its own field only; the frame says no other field changes.

    method SetId(id: int32)
      modifies this`id
      ensures GetId() == id
      ensures name == old(name) && completed == old(completed) && googleEventId == old(googleEventId)
    {
      this.id := id;
    }

    method SetName(name: string)
      modifies this`name
      ensures GetName() == name
      ensures id == old(id) && completed == old(completed) && googleEventId == old(googleEventId)
    {
      this.name := name;
    }

    method SetCompleted(completed: bool)
      modifies this`completed
      ensures IsCompleted() == completed
      ensures id == old(id) && name == old(name) && googleEventId == old(googleEventId)
    {
      this.completed := completed;
    }

    method SetGoogleEventId(googleEventId: Option<string>)
      modifies this`googleEventId
      ensures GetGoogleEventId() == googleEventId
      ensures id == old(id) && name == old(name) && completed == old(completed)
    {
      this.googleEventId := googleEventId;
    }
  }
}
