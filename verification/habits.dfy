/** The habit record the pages receive from `/habits` and `/habits/manage`:
    a database id, the display fields, and today's done flag. */
module Habits {

  datatype Habit = Habit(id: int, name: string, icon: string, category: string, difficulty: int, done: bool)

}
