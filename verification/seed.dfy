/** Seed values the store returns before anything has been written:
    the initial settings, the sample milestones and the sample journal. */
module Seed {
  import opened Wrappers
  import opened Types

  const InitialSettings: UserSettings := UserSettings(
    TraditionalChinese, "1999-01-01", "08:30", CustomPreset, 85,
    8.0, 8.0, 8.0, "09:00", "18:00", 6, LinearBar, true, false,
    [Anniversary("1", "Graduation", "2026-06-15"), Anniversary("2", "First Home", "2028-10-01")])

  const MockMilestones: seq<Milestone> := [
    Milestone("1", "Summit Mt. Fuji", Some("2023"), Completed, Some(Adventure), None, None, None,
      Some("https://images.unsplash.com/photo-1570690516157-a2d712741914?w=400&q=80"), Some(23)),
    Milestone("2", "Master Piano Concerto No. 2", None, Pending, Some(Skill), None, None, None, None, Some(28)),
    Milestone("3", "Travel to Antarctica", None, LongTerm, Some(Travel), None, None, None, None, Some(40)),
    Milestone("4", "Learn Surfing", None, Missed, Some(Adventure), None, None, None, None, Some(22))
  ]

  const MockLogs: seq<LogEntry> := [
      LogEntry("1", "21:30", "Oct 14, 2023",
        "Finally understood the core concept of temporal dynamics today. It felt like a door opening in my mind.",
        None, None, None, None,
        [Tag("#INSIGHT", InsightTag), Tag("#GROWTH", GrowthTag)], Some(true)),
      LogEntry("2", "08:45", "Oct 12, 2023",
        "Morning meditation was particularly deep. Realized that speed is often the enemy of progress.",
        Some(true), None, Some("0:45"), None,
        [Tag("#MINDFULNESS", MindfulnessTag)], None),
      LogEntry("3", "14:20", "Oct 05, 2023",
        "Started reading a new philosophy book. It challenges my perception of linear time.",
        None, None, None, None,
        [Tag("#GROWTH", GrowthTag)], None),
      LogEntry("4", "19:15", "Sep 28, 2023",
        "Felt a strong sense of nostalgia today while walking through the park. The autumn air changes everything.",
        None, None, None, None,
        [Tag("#REFLECTION", CustomTag)], None),
      LogEntry("5", "10:00", "Sep 15, 2023",
        "Achieved a breakthrough in coding project. The flow state was real.",
        None, None, None, None,
        [Tag("#ACHIEVEMENT", GrowthTag)], Some(true)),
      LogEntry("6", "22:30", "Aug 22, 2023",
        "Late night thoughts about the scale of the universe. We are so small yet significant.",
        None, None, None, None,
        [Tag("#INSIGHT", InsightTag)], None),
      LogEntry("7", "18:45", "Aug 08, 2023",
        "Discovered a new hiking trail. Nature has a way of resetting the mind.",
        None, None, None, Some(["https://images.unsplash.com/photo-1551632811-561732d1e306?w=200&q=80"]),
        [Tag("#MINDFULNESS", MindfulnessTag)], None),
      LogEntry("8", "09:00", "Jul 14, 2023",
        "Mid-year review. Progress is slower than expected, but steady. Patience is key.",
        None, None, None, None,
        [Tag("#GROWTH", GrowthTag)], None),
      LogEntry("9", "11:20", "Jun 30, 2023",
        "First day of the new routine. It feels difficult but necessary for long term goals.",
        None, None, None, None,
        [Tag("#DISCIPLINE", CustomTag)], None),
      LogEntry("10", "23:45", "Jun 15, 2023",
        "Stargazing in the desert. The silence here is a physical weight, grounded in infinity.",
        None, None, None, None,
        [Tag("#INSIGHT", InsightTag)], None),
      LogEntry("11", "07:30", "Jun 10, 2023",
        "Woke up before the sun. The world at dawn belongs to those who observe it in silence.",
        None, None, None, None,
        [Tag("#MINDFULNESS", MindfulnessTag)], None),
      LogEntry("12", "16:00", "Jun 02, 2023",
        "Completed the endurance challenge. 20 miles. Body is spent, mind is sharp.",
        None, None, None, None,
        [Tag("#GROWTH", GrowthTag)], Some(true)),
      LogEntry("13", "12:00", "May 28, 2023",
        "Coffee with an old mentor. He reminded me that Plan B is just a distraction from executing Plan A.",
        None, None, None, None,
        [Tag("#INSIGHT", InsightTag)], None),
      LogEntry("14", "20:15", "May 20, 2023",
        "Testing the new HUD interface. The Aero Gold highlights look sharp under low-light conditions.",
        None, None, None, None,
        [Tag("#TECHNOLOGY", CustomTag)], None),
      LogEntry("15", "09:30", "May 12, 2023",
        "Heavy rain today. It slows down the perception of everything. Good for deep work.",
        None, None, None, None,
        [Tag("#MINDFULNESS", MindfulnessTag)], None),
      LogEntry("16", "09:30", "May 12, 2023",
        "Heavy rain today. It slows down the perception of everything. Good for deep work.",
        None, None, None, None,
        [Tag("#MINDFULNESS", MindfulnessTag)], None)
  ]

  const DefaultProfile: UserProfile := UserProfile("Chronos Pioneer", None)
}
