/** The student-record checks and the two sorts of Ex1/manageStudents.c.
    A record is a `Student` value; the table the program fills is an
    `array<Student>` of which the first `arrIndex` entries are in use. */
module ManageStudents {
  import opened Wrappers
  import opened Orders
  import opened Structs

  const SUCCESS := 0
  const FAIL := 1
  const ID_LENGTH := 11
  const MIN_GRADE := 0
  const MAX_GRADE := 100
  const MIN_AGE := 18
  const MAX_AGE := 120
  const SPACE := 32 as char
  const HYPHEN := 45 as char

  /** One line of input once its six comma-separated fields are split. */
  datatype Student = Student(id: string, name: string, grade: int, age: int, country: string, city: string)

  // ---------------------------------------------------------------------
  // Character classes (the "C" locale of isdigit and isalpha)

  predicate IsDigit(c: char) { '0' <= c <= '9' }

  predicate IsAlpha(c: char) { 'a' <= c <= 'z' || 'A' <= c <= 'Z' }

  predicate NameChar(c: char) { IsAlpha(c) || c == SPACE || c == HYPHEN }

  predicate LocationChar(c: char) { IsAlpha(c) || c == HYPHEN }

  predicate AllDigits(s: string) { forall i :: 0 <= i < |s| ==> IsDigit(s[i]) }

  predicate AllNameChars(s: string) { forall i :: 0 <= i < |s| ==> NameChar(s[i]) }

  predicate AllLocationChars(s: string) { forall i :: 0 <= i < |s| ==> LocationChar(s[i]) }

  /** `isValidId`: SUCCESS exactly when every character is a digit. */
  method IsValidId(str: string) returns (r: int)
    ensures r == SUCCESS || r == FAIL
    ensures r == SUCCESS <==> AllDigits(str)
  {
    var i := 0;
    while i < |str|
      invariant 0 <= i <= |str|
      invariant forall k :: 0 <= k < i ==> IsDigit(str[k])
    {
      if !IsDigit(str[i]) {
        return FAIL;
      }
      i := i + 1;
    }
    return SUCCESS;
  }

  /** `isValidLocation`: SUCCESS exactly when every character is a letter
      or a hyphen. */
  method IsValidLocation(str: string) returns (r: int)
    ensures r == SUCCESS || r == FAIL
    ensures r == SUCCESS <==> AllLocationChars(str)
  {
    var i := 0;
    while i < |str|
      invariant 0 <= i <= |str|
      invariant forall k :: 0 <= k < i ==> LocationChar(str[k])
    {
      if !IsAlpha(str[i]) && str[i] != HYPHEN {
        return FAIL;
      }
      i := i + 1;
    }
    return SUCCESS;
  }

  /** `isValidName`: SUCCESS exactly when every character is a letter, a
      space or a hyphen. */
  method IsValidName(str: string) returns (r: int)
    ensures r == SUCCESS || r == FAIL
    ensures r == SUCCESS <==> AllNameChars(str)
  {
    var i := 0;
    while i < |str|
      invariant 0 <= i <= |str|
      invariant forall k :: 0 <= k < i ==> NameChar(str[k])
    {
      if !IsAlpha(str[i]) && str[i] != SPACE && str[i] != HYPHEN {
        return FAIL;
      }
      i := i + 1;
    }
    return SUCCESS;
  }

  // ---------------------------------------------------------------------
  // checkInput

  /** The message `checkInput` prints: which rule the line broke first. */
  datatype InputError = FormatError | IdError | NameError | GradeError | AgeError | CountryError | CityError

  /** Ten digits, the first of them not zero. */
  predicate ValidId(id: string) { |id| == ID_LENGTH - 1 && AllDigits(id) && id[0] != '0' }

  predicate GradeInRange(grade: int) { MIN_GRADE <= grade <= MAX_GRADE }

  predicate AgeInRange(age: int) { MIN_AGE <= age <= MAX_AGE }

  predicate ValidStudent(s: Student) {
    ValidId(s.id) && AllNameChars(s.name) && GradeInRange(s.grade) && AgeInRange(s.age)
    && AllLocationChars(s.country) && AllLocationChars(s.city)
  }

  /** `checkInput` on the outcome of splitting the line: `None` when the
      line does not have six fields.  The rules are tried in the order id,
      name, grade, age, country, city, and the first one broken is the one
      reported. */
  method CheckInput(fields: Option<Student>) returns (r: int, reported: Option<InputError>)
    ensures r == (if reported.None? then SUCCESS else FAIL)
    ensures reported.None? <==> fields.Some? && ValidStudent(fields.value)
    ensures reported == Some(FormatError) <==> fields.None?
    ensures reported == Some(IdError) <==> fields.Some? && !ValidId(fields.value.id)
    ensures reported == Some(NameError) <==>
      fields.Some? && ValidId(fields.value.id) && !AllNameChars(fields.value.name)
    ensures reported == Some(GradeError) <==>
      fields.Some? && ValidId(fields.value.id) && AllNameChars(fields.value.name)
      && !GradeInRange(fields.value.grade)
    ensures reported == Some(AgeError) <==>
      fields.Some? && ValidId(fields.value.id) && AllNameChars(fields.value.name)
      && GradeInRange(fields.value.grade) && !AgeInRange(fields.value.age)
    ensures reported == Some(CountryError) <==>
      fields.Some? && ValidId(fields.value.id) && AllNameChars(fields.value.name)
      && GradeInRange(fields.value.grade) && AgeInRange(fields.value.age)
      && !AllLocationChars(fields.value.country)
    ensures reported == Some(CityError) <==>
      fields.Some? && ValidId(fields.value.id) && AllNameChars(fields.value.name)
      && GradeInRange(fields.value.grade) && AgeInRange(fields.value.age)
      && AllLocationChars(fields.value.country) && !AllLocationChars(fields.value.city)
  {
    if fields.None? {
      return FAIL, Some(FormatError);
    }
    var s := fields.value;
    var idCheck := FAIL;
    if |s.id| == ID_LENGTH - 1 {
      idCheck := IsValidId(s.id);
    }
    if |s.id| != ID_LENGTH - 1 || idCheck == FAIL || s.id[0] == '0' {
      return FAIL, Some(IdError);
    }
    var nameCheck := IsValidName(s.name);
    if nameCheck == FAIL {
      return FAIL, Some(NameError);
    }
    if s.grade < MIN_GRADE || s.grade > MAX_GRADE {
      return FAIL, Some(GradeError);
    }
    if s.age < MIN_AGE || s.age > MAX_AGE {
      return FAIL, Some(AgeError);
    }
    var countryCheck := IsValidLocation(s.country);
    if countryCheck == FAIL {
      return FAIL, Some(CountryError);
    }
    var cityCheck := IsValidLocation(s.city);
    if cityCheck == FAIL {
      return FAIL, Some(CityError);
    }
    return SUCCESS, None;
  }

  // ---------------------------------------------------------------------
  // findBestStudent

  /** A student's score, grade divided by age. */
  function Score(s: Student): real
    requires s.age > 0
  {
    s.grade as real / s.age as real
  }

  /** `findBestStudent`: the running best starts at 0 with index 0 and is
      replaced only by a strictly larger score.  So the answer is the first
      student of highest score when some score is positive, and 0 otherwise. */
  method FindBestStudent(students: array<Student>, arrIndex: int) returns (bestIndex: int)
    requires 0 <= arrIndex <= students.Length
    requires forall i :: 0 <= i < arrIndex ==> students[i].age > 0
    ensures arrIndex == 0 ==> bestIndex == 0
    ensures arrIndex > 0 ==> 0 <= bestIndex < arrIndex
    ensures (forall i :: 0 <= i < arrIndex ==> Score(students[i]) <= 0.0) ==> bestIndex == 0
    ensures (exists i :: 0 <= i < arrIndex && Score(students[i]) > 0.0) ==>
      && 0 <= bestIndex < arrIndex
      && Score(students[bestIndex]) > 0.0
      && (forall j :: 0 <= j < arrIndex ==> Score(students[j]) <= Score(students[bestIndex]))
      && (forall j :: 0 <= j < bestIndex ==> Score(students[j]) < Score(students[bestIndex]))
  {
    var bestGrade: real := 0.0;
    bestIndex := 0;
    var i := 0;
    while i < arrIndex
      invariant 0 <= i <= arrIndex
      invariant bestGrade == 0.0 ==> bestIndex == 0
      invariant bestGrade == 0.0 <==> forall k :: 0 <= k < i ==> Score(students[k]) <= 0.0
      invariant bestGrade != 0.0 ==>
        && 0 <= bestIndex < i
        && bestGrade == Score(students[bestIndex]) > 0.0
        && (forall k :: 0 <= k < i ==> Score(students[k]) <= bestGrade)
        && (forall k :: 0 <= k < bestIndex ==> Score(students[k]) < bestGrade)
    {
      var score := students[i].grade as real / students[i].age as real;
      if score > bestGrade {
        bestGrade := score;
        bestIndex := i;
      }
      i := i + 1;
    }
  }

  // ---------------------------------------------------------------------
  // merge and mergeSortHelper: a stable sort by grade

  predicate SortedByGrade(s: seq<Student>) {
    forall i, j :: 0 <= i < j < |s| ==> s[i].grade <= s[j].grade
  }

  /** The students of `s` whose grade is `g`, in their order in `s`. */
  function WithGrade(s: seq<Student>, g: int): seq<Student> {
    if s == [] then []
    else (if s[0].grade == g then [s[0]] else []) + WithGrade(s[1..], g)
  }

  /** The sequence `merge` writes: the heads are compared and the first half
      wins a tie. */
  function MergeSeq(a: seq<Student>, b: seq<Student>): (r: seq<Student>)
    ensures |r| == |a| + |b|
    decreases |a| + |b|
  {
    if a == [] then b
    else if b == [] then a
    else if a[0].grade <= b[0].grade then [a[0]] + MergeSeq(a[1..], b)
    else [b[0]] + MergeSeq(a, b[1..])
  }

  /** The sequence `mergeSortHelper` leaves: the first half is one longer
      than the second when the length is odd, as `(start + end) / 2` makes it. */
  function MergeSortSeq(s: seq<Student>): (r: seq<Student>)
    ensures |r| == |s|
    decreases |s|
  {
    if |s| <= 1 then s
    else
      var h := (|s| - 1) / 2 + 1;
      MergeSeq(MergeSortSeq(s[..h]), MergeSortSeq(s[h..]))
  }

  lemma {:induction false} WithGradeAppend(a: seq<Student>, b: seq<Student>, g: int)
    ensures WithGrade(a + b, g) == WithGrade(a, g) + WithGrade(b, g)
  {
    if a == [] {
      assert a + b == b;
    } else {
      var h := if a[0].grade == g then [a[0]] else [];
      ConcatHead(a, b);
      WithGradeAppend(a[1..], b, g);
      Assoc3(h, WithGrade(a[1..], g), WithGrade(b, g));
    }
  }

  /** The head and tail of a concatenation with a non-empty left part. */
  lemma ConcatHead<T>(a: seq<T>, b: seq<T>)
    requires a != []
    ensures a + b != [] && (a + b)[0] == a[0] && (a + b)[1..] == a[1..] + b
  {
  }

  lemma Assoc3<T>(x: seq<T>, y: seq<T>, z: seq<T>)
    ensures x + (y + z) == (x + y) + z
  {
  }

  /** A sorted sequence whose first grade is above `g` has no student of grade `g`. */
  lemma {:induction false} WithGradeAbove(a: seq<Student>, g: int)
    requires SortedByGrade(a) && a != [] && a[0].grade > g
    ensures WithGrade(a, g) == []
  {
    if |a| > 1 {
      WithGradeAbove(a[1..], g);
    }
  }

  /** Taking one head in front of a merge of the rest. */
  lemma ConsPerm<T>(x: T, t: seq<T>, m: seq<T>, rest: seq<T>, other: seq<T>)
    requires multiset(rest) == multiset(t) + multiset(other)
    requires m == [x] + rest
    ensures multiset(m) == multiset([x] + t) + multiset(other)
  {
  }

  /** Merging loses and invents no student. */
  lemma {:induction false} MergePermutation(a: seq<Student>, b: seq<Student>)
    ensures multiset(MergeSeq(a, b)) == multiset(a) + multiset(b)
    decreases |a| + |b|
  {
    if a == [] || b == [] {
    } else if a[0].grade <= b[0].grade {
      var t := MergeSeq(a[1..], b);
      assert multiset(t) == multiset(a[1..]) + multiset(b) by { MergePermutation(a[1..], b); }
      assert a == [a[0]] + a[1..];
      ConsPerm(a[0], a[1..], MergeSeq(a, b), t, b);
    } else {
      var t := MergeSeq(a, b[1..]);
      assert multiset(t) == multiset(b[1..]) + multiset(a) by { MergePermutation(a, b[1..]); }
      assert b == [b[0]] + b[1..];
      ConsPerm(b[0], b[1..], MergeSeq(a, b), t, a);
    }
  }

  /** Every grade in `s` is at least `g`. */
  predicate GradesFrom(s: seq<Student>, g: int) {
    forall k :: 0 <= k < |s| ==> g <= s[k].grade
  }

  /** Merging keeps a lower bound both parts share. */
  lemma {:induction false} MergeBound(a: seq<Student>, b: seq<Student>, g: int)
    requires GradesFrom(a, g) && GradesFrom(b, g)
    ensures GradesFrom(MergeSeq(a, b), g)
    decreases |a| + |b|
  {
    if a == [] || b == [] {
    } else if a[0].grade <= b[0].grade {
      MergeBound(a[1..], b, g);
    } else {
      MergeBound(a, b[1..], g);
    }
  }

  /** A head at or below every grade of a sorted tail gives a sorted sequence. */
  lemma SortedCons(x: Student, rest: seq<Student>)
    requires GradesFrom(rest, x.grade) && SortedByGrade(rest)
    ensures SortedByGrade([x] + rest)
  {
  }

  /** Merging two sorted halves gives a sorted whole. */
  lemma {:induction false} MergeSorted(a: seq<Student>, b: seq<Student>)
    requires SortedByGrade(a) && SortedByGrade(b)
    ensures SortedByGrade(MergeSeq(a, b))
    decreases |a| + |b|
  {
    if a == [] || b == [] {
    } else if a[0].grade <= b[0].grade {
      MergeSorted(a[1..], b);
      MergeBound(a[1..], b, a[0].grade);
      SortedCons(a[0], MergeSeq(a[1..], b));
    } else {
      MergeSorted(a, b[1..]);
      MergeBound(a, b[1..], b[0].grade);
      SortedCons(b[0], MergeSeq(a, b[1..]));
    }
  }

  /** Stability: the students of one grade keep their order, those of the
      first half ahead of those of the second. */
  lemma {:induction false} MergeStable(a: seq<Student>, b: seq<Student>, g: int)
    requires SortedByGrade(a) && SortedByGrade(b)
    ensures WithGrade(MergeSeq(a, b), g) == WithGrade(a, g) + WithGrade(b, g)
    decreases |a| + |b|
  {
    if a == [] {
      assert WithGrade(a, g) == [];
    } else if b == [] {
      assert WithGrade(b, g) == [];
    } else if a[0].grade <= b[0].grade {
      MergeStable(a[1..], b, g);
    } else {
      MergeStable(a, b[1..], g);
      if b[0].grade == g {
        WithGradeAbove(a, g);
      }
    }
  }

  /** Sorting the halves and merging them keeps the students of the whole. */
  lemma PermCombine<T>(x: seq<T>, l: seq<T>, r: seq<T>, ml: seq<T>, mr: seq<T>, m: seq<T>)
    requires x == l + r
    requires multiset(ml) == multiset(l) && multiset(mr) == multiset(r)
    requires multiset(m) == multiset(ml) + multiset(mr)
    ensures multiset(m) == multiset(x)
  {
  }

  /** The sort loses and invents no student. */
  lemma {:induction false} MergeSortPermutation(s: seq<Student>)
    ensures multiset(MergeSortSeq(s)) == multiset(s)
    decreases |s|
  {
    if |s| > 1 {
      var h := (|s| - 1) / 2 + 1;
      var l, r := s[..h], s[h..];
      var ml, mr := MergeSortSeq(l), MergeSortSeq(r);
      assert multiset(ml) == multiset(l) by { MergeSortPermutation(l); }
      assert multiset(mr) == multiset(r) by { MergeSortPermutation(r); }
      assert multiset(MergeSeq(ml, mr)) == multiset(ml) + multiset(mr) by { MergePermutation(ml, mr); }
      assert s == l + r;
      PermCombine(s, l, r, ml, mr, MergeSeq(ml, mr));
    }
  }

  /** The sort leaves the grades in ascending order. */
  lemma {:induction false} MergeSortSorted(s: seq<Student>)
    ensures SortedByGrade(MergeSortSeq(s))
    decreases |s|
  {
    if |s| > 1 {
      var h := (|s| - 1) / 2 + 1;
      MergeSortSorted(s[..h]);
      MergeSortSorted(s[h..]);
      MergeSorted(MergeSortSeq(s[..h]), MergeSortSeq(s[h..]));
    }
  }

  /** The sort is stable: for every grade, the students of that grade come
      out in the order they went in. */
  lemma {:induction false} MergeSortStable(s: seq<Student>, g: int)
    ensures WithGrade(MergeSortSeq(s), g) == WithGrade(s, g)
    decreases |s|
  {
    if |s| > 1 {
      var h := (|s| - 1) / 2 + 1;
      var l, r := s[..h], s[h..];
      var ml, mr := MergeSortSeq(l), MergeSortSeq(r);
      assert WithGrade(ml, g) == WithGrade(l, g) by { MergeSortStable(l, g); }
      assert WithGrade(mr, g) == WithGrade(r, g) by { MergeSortStable(r, g); }
      assert WithGrade(MergeSeq(ml, mr), g) == WithGrade(ml, g) + WithGrade(mr, g) by {
        MergeSortSorted(l);
        MergeSortSorted(r);
        MergeStable(ml, mr, g);
      }
      assert WithGrade(s, g) == WithGrade(l, g) + WithGrade(r, g) by {
        assert s == l + r;
        WithGradeAppend(l, r, g);
      }
    }
  }

  /** A sequence whose suffix from `t` is `[x] + r` has `x` at `t` and `r` after it. */
  lemma SuffixHead<T>(s: seq<T>, t: nat, x: T, r: seq<T>)
    requires t <= |s| && s[t..] == [x] + r
    ensures t < |s| && s[t] == x && s[t + 1..] == r
  {
    assert s[t..][0] == x;
    assert s[t..][1..] == r;
  }

  /** If `a` is the suffix of `m` from `i` and `a` is `[x] + r`, then `r`
      is the suffix from `i + 1`. */
  lemma SuffixStep<T>(m: seq<T>, i: nat, a: seq<T>, x: T, r: seq<T>)
    requires i <= |m| && a == m[i..] && a == [x] + r
    ensures i < |m| && r == m[i + 1..]
  {
    SuffixHead(m, i, x, r);
  }

  // The array form of `merge`. With `s` the table before the call, the
  // loop state after `t - start` writes is `Taken(s, .., t)` (the next
  // unread index of each part), and `Written(s, .., t)` is what it writes
  // at `tempArr[t]`. `MergeAt` is the rest of the merge from a state.

  /** The loop of `merge` takes the head of the first part: the second part
      is used up or its head's grade is not smaller. */
  predicate TakesFirst(s: seq<Student>, middle: int, end: int, p: int, q: int)
    requires 0 <= p <= middle + 1 <= q <= end + 1 <= |s| && (p <= middle || q <= end)
  {
    p <= middle && (q > end || s[p].grade <= s[q].grade)
  }

  /** The indices `(firstArrInd, secondArrInd)` after `t - start` writes. */
  function Taken(s: seq<Student>, start: int, middle: int, end: int, t: int): (pq: (int, int))
    requires 0 <= start <= middle <= end < |s| && start <= t <= end + 1
    ensures start <= pq.0 <= middle + 1 <= pq.1 <= end + 1 && pq.0 + pq.1 - (middle + 1) == t
    decreases t - start
  {
    if t == start then (start, middle + 1)
    else
      var pq := Taken(s, start, middle, end, t - 1);
      if TakesFirst(s, middle, end, pq.0, pq.1) then (pq.0 + 1, pq.1) else (pq.0, pq.1 + 1)
  }

  /** The student `merge` writes at `tempArr[t]`. */
  function Written(s: seq<Student>, start: int, middle: int, end: int, t: int): Student
    requires 0 <= start <= middle <= end < |s| && start <= t <= end
  {
    var pq := Taken(s, start, middle, end, t);
    if TakesFirst(s, middle, end, pq.0, pq.1) then s[pq.0] else s[pq.1]
  }

  /** The rest of the merge from the state `(p, q)`. */
  function MergeAt(s: seq<Student>, middle: int, end: int, p: int, q: int): (r: seq<Student>)
    requires 0 <= p <= middle + 1 <= q <= end + 1 <= |s|
    ensures |r| == (middle + 1 - p) + (end + 1 - q)
    decreases middle + 1 - p + end + 1 - q
  {
    if p > middle && q > end then []
    else if TakesFirst(s, middle, end, p, q) then [s[p]] + MergeAt(s, middle, end, p + 1, q)
    else [s[q]] + MergeAt(s, middle, end, p, q + 1)
  }

  /** One write moves the loop state one step along the merge. */
  lemma TakenStep(s: seq<Student>, start: int, middle: int, end: int, u: int, t: int)
    requires 0 <= start <= middle <= end < |s| && start <= u && t == u + 1 <= end + 1
    ensures MergeAt(s, middle, end, Taken(s, start, middle, end, u).0, Taken(s, start, middle, end, u).1)
      == [Written(s, start, middle, end, u)]
         + MergeAt(s, middle, end, Taken(s, start, middle, end, t).0, Taken(s, start, middle, end, t).1)
  {
    var pq := Taken(s, start, middle, end, u);
    var p, q := pq.0, pq.1;
    assert p <= middle || q <= end;
    var first := TakesFirst(s, middle, end, p, q);
    var x := if first then s[p] else s[q];
    var np, nq := if first then p + 1 else p, if first then q else q + 1;
    assert Taken(s, start, middle, end, t) == (np, nq) by {
      assert Taken(s, start, middle, end, t - 1) == pq;
    }
    assert Written(s, start, middle, end, u) == x;
    MergeAtStep(s, middle, end, p, q, x, np, nq);
  }

  /** The merge from a state with a student left takes the head `merge` picks. */
  lemma MergeAtStep(s: seq<Student>, middle: int, end: int, p: int, q: int, x: Student, np: int, nq: int)
    requires 0 <= p <= middle + 1 <= q <= end + 1 <= |s| && (p <= middle || q <= end)
    requires TakesFirst(s, middle, end, p, q) ==> x == s[p] && np == p + 1 && nq == q
    requires !TakesFirst(s, middle, end, p, q) ==> x == s[q] && np == p && nq == q + 1
    ensures 0 <= np <= middle + 1 <= nq <= end + 1
    ensures MergeAt(s, middle, end, p, q) == [x] + MergeAt(s, middle, end, np, nq)
  {
  }

  /** After `t - start` writes, the rest of the merge is the suffix of the whole one. */
  lemma {:induction false} TakenSuffix(s: seq<Student>, start: int, middle: int, end: int, t: int)
    requires 0 <= start <= middle <= end < |s| && start <= t <= end + 1
    ensures MergeAt(s, middle, end, Taken(s, start, middle, end, t).0, Taken(s, start, middle, end, t).1)
      == MergeAt(s, middle, end, start, middle + 1)[t - start..]
    decreases t - start, 1
  {
    if t > start {
      TakenSuffixStep(s, start, middle, end, t);
    } else {
      WholeSuffix(MergeAt(s, middle, end, start, middle + 1));
    }
  }

  lemma WholeSuffix<T>(m: seq<T>)
    ensures m[0..] == m
  {
  }

  /** The step of `TakenSuffix`: one more write drops one more element. */
  lemma {:induction false} TakenSuffixStep(s: seq<Student>, start: int, middle: int, end: int, t: int)
    requires 0 <= start <= middle <= end < |s| && start < t <= end + 1
    ensures MergeAt(s, middle, end, Taken(s, start, middle, end, t).0, Taken(s, start, middle, end, t).1)
      == MergeAt(s, middle, end, start, middle + 1)[t - start..]
    decreases t - start, 0
  {
    var m, u := MergeAt(s, middle, end, start, middle + 1), t - 1;
    var pq, pq' := Taken(s, start, middle, end, u), Taken(s, start, middle, end, t);
    TakenSuffix(s, start, middle, end, u);
    TakenStep(s, start, middle, end, u, t);
    SuffixStep(m, u - start, MergeAt(s, middle, end, pq.0, pq.1), Written(s, start, middle, end, u),
      MergeAt(s, middle, end, pq'.0, pq'.1));
  }

  /** What `merge` writes at `t` is the merge's element at `t - start`. */
  lemma WrittenIsMerge(s: seq<Student>, start: int, middle: int, end: int, t: int)
    requires 0 <= start <= middle <= end < |s| && start <= t <= end
    ensures Written(s, start, middle, end, t) == MergeAt(s, middle, end, start, middle + 1)[t - start]
  {
    var m := MergeAt(s, middle, end, start, middle + 1);
    var pq := Taken(s, start, middle, end, t);
    TakenSuffix(s, start, middle, end, t);
    var x := if TakesFirst(s, middle, end, pq.0, pq.1) then s[pq.0] else s[pq.1];
    var r := if TakesFirst(s, middle, end, pq.0, pq.1) then MergeAt(s, middle, end, pq.0 + 1, pq.1)
             else MergeAt(s, middle, end, pq.0, pq.1 + 1);
    SuffixHead(m, t - start, x, r);
  }
  /** The first loop of `merge`: both parts still have students. */
  method MergeRuns(students: array<Student>, tempArr: array<Student>, start: int, middle: int, end: int)
      returns (firstArrInd: int, secondArrInd: int, tempArrInd: int)
    requires 0 <= start <= middle <= end < students.Length == tempArr.Length && students != tempArr
    modifies tempArr
    ensures start <= firstArrInd <= middle + 1 <= secondArrInd <= end + 1
    ensures firstArrInd > middle || secondArrInd > end
    ensures tempArrInd == firstArrInd + secondArrInd - (middle + 1)
    ensures Taken(students[..], start, middle, end, tempArrInd) == (firstArrInd, secondArrInd)
    ensures forall k :: start <= k < tempArrInd ==> tempArr[k] == Written(students[..], start, middle, end, k)
  {
    ghost var s := students[..];
    firstArrInd, secondArrInd, tempArrInd := start, middle + 1, start;
    while firstArrInd <= middle && secondArrInd <= end
      invariant start <= firstArrInd <= middle + 1 <= secondArrInd <= end + 1
      invariant tempArrInd == firstArrInd + secondArrInd - (middle + 1)
      invariant Taken(s, start, middle, end, tempArrInd) == (firstArrInd, secondArrInd)
      invariant forall k :: start <= k < tempArrInd ==> tempArr[k] == Written(s, start, middle, end, k)
    {
      if students[firstArrInd].grade <= students[secondArrInd].grade {
        tempArr[tempArrInd] := students[firstArrInd];
        firstArrInd := firstArrInd + 1;
      } else {
        tempArr[tempArrInd] := students[secondArrInd];
        secondArrInd := secondArrInd + 1;
      }
      tempArrInd := tempArrInd + 1;
    }
  }

  /** Once one part is used up, the merge is the rest of the other part. */
  lemma {:induction false} MergeAtDrained(s: seq<Student>, middle: int, end: int, p: int, q: int)
    requires 0 <= p <= middle + 1 <= q <= end + 1 <= |s|
    ensures p > middle ==> MergeAt(s, middle, end, p, q) == s[q..end + 1]
    ensures q > end ==> MergeAt(s, middle, end, p, q) == s[p..middle + 1]
    decreases middle + 1 - p + end + 1 - q
  {
    if p > middle && q <= end {
      MergeAtDrained(s, middle, end, p, q + 1);
      assert s[q..end + 1] == [s[q]] + s[q + 1..end + 1];
    } else if q > end && p <= middle {
      MergeAtDrained(s, middle, end, p + 1, q);
      assert s[p..middle + 1] == [s[p]] + s[p + 1..middle + 1];
    }
  }

  /** The `for` loops of `merge` that copy a run `src[from..to]` to `dst[at..]`. */
  method CopyRun(src: array<Student>, dst: array<Student>, from: int, to: int, at: int)
    requires src != dst && 0 <= from <= to + 1 <= src.Length && 0 <= at && at + (to - from) < dst.Length
    modifies dst
    ensures forall x :: at <= x <= at + (to - from) ==> dst[x] == src[from + (x - at)]
    ensures forall x :: 0 <= x < dst.Length && !(at <= x <= at + (to - from)) ==> dst[x] == old(dst[x])
  {
    var i, t := from, at;
    while i <= to
      invariant from <= i <= to + 1 && t == at + (i - from)
      invariant forall x :: at <= x < t ==> dst[x] == src[from + (x - at)]
      invariant forall x :: 0 <= x < dst.Length && !(at <= x < t) ==> dst[x] == old(dst[x])
    {
      dst[t] := src[i];
      t := t + 1;
      i := i + 1;
    }
  }

  /** The array form of the merge is the merge of the two parts as sequences. */
  lemma {:induction false} MergeAtIsMergeSeq(s: seq<Student>, middle: int, end: int, p: int, q: int)
    requires 0 <= p <= middle + 1 <= q <= end + 1 <= |s|
    ensures MergeAt(s, middle, end, p, q) == MergeSeq(s[p..middle + 1], s[q..end + 1])
    decreases middle + 1 - p + end + 1 - q
  {
    var a, b := s[p..middle + 1], s[q..end + 1];
    if p > middle && q > end {
    } else if TakesFirst(s, middle, end, p, q) {
      MergeAtIsMergeSeq(s, middle, end, p + 1, q);
      assert a[1..] == s[p + 1..middle + 1];
    } else {
      MergeAtIsMergeSeq(s, middle, end, p, q + 1);
      assert b[1..] == s[q + 1..end + 1];
    }
  }

  /** `r` is `s` with the range `[start, end]` replaced by `m`. */
  ghost predicate SplicedAt<T>(r: seq<T>, s: seq<T>, start: int, end: int, m: seq<T>)
    requires 0 <= start <= end < |s|
  {
    |r| == |s| && r[..start] == s[..start] && r[start..end + 1] == m && r[end + 1..] == s[end + 1..]
  }

  /** A sequence known entry by entry is the splice of `m` into `s` at `start`. */
  lemma Splice<T>(s: seq<T>, m: seq<T>, start: int, end: int, r: seq<T>)
    requires 0 <= start <= end < |s| == |r| && |m| == end + 1 - start
    requires forall k :: 0 <= k < |s| && !(start <= k <= end) ==> r[k] == s[k]
    requires forall k :: start <= k <= end ==> r[k] == m[k - start]
    ensures SplicedAt(r, s, start, end, m)
  {
  }

  /** `merge`: the parts `[start, middle]` and `[middle + 1, end]` are merged
      into a temporary array and copied back; the rest of the table stays. */
  method Merge(students: array<Student>, start: int, middle: int, end: int)
    requires 0 <= start <= middle <= end < students.Length
    modifies students
    ensures SplicedAt(students[..], old(students[..]), start, end,
      MergeAt(old(students[..]), middle, end, start, middle + 1))
  {
    ghost var s := students[..];
    ghost var m := MergeAt(s, middle, end, start, middle + 1);
    var tempArr := new Student[students.Length];
    var firstArrInd, secondArrInd, tempArrInd := MergeRuns(students, tempArr, start, middle, end);
    forall k | start <= k < tempArrInd
      ensures tempArr[k] == m[k - start]
    {
      WrittenIsMerge(s, start, middle, end, k);
    }
    ghost var rest := if firstArrInd > middle then s[secondArrInd..end + 1] else s[firstArrInd..middle + 1];
    assert m[tempArrInd - start..] == rest by {
      TakenSuffix(s, start, middle, end, tempArrInd);
      MergeAtDrained(s, middle, end, firstArrInd, secondArrInd);
    }
    if firstArrInd > middle {
      CopyRun(students, tempArr, secondArrInd, end, tempArrInd);
    } else {
      CopyRun(students, tempArr, firstArrInd, middle, tempArrInd);
    }
    forall x | start <= x <= end
      ensures tempArr[x] == m[x - start]
    {
      if x >= tempArrInd {
        assert m[x - start] == rest[x - tempArrInd];
      }
    }
    CopyRun(tempArr, students, start, end, start);
    Splice(s, m, start, end, students[..]);
  }

  /** One level of the merge sort's recursion. */
  lemma MergeSortSplit(x: seq<Student>, h: int)
    requires |x| > 1 && h == (|x| - 1) / 2 + 1
    ensures MergeSortSeq(x) == MergeSeq(MergeSortSeq(x[..h]), MergeSortSeq(x[h..]))
  {
  }

  /** Splicing into `s2` is splicing into `s` when `s2` agrees with `s`
      outside the range. */
  lemma SpliceChain<T>(s: seq<T>, s2: seq<T>, r: seq<T>, start: int, end: int, m2: seq<T>, m: seq<T>)
    requires 0 <= start <= end < |s| == |s2|
    requires SplicedAt(r, s2, start, end, m2) && m2 == m
    requires s2[..start] == s[..start] && s2[end + 1..] == s[end + 1..]
    ensures SplicedAt(r, s, start, end, m)
  {
  }

  /** The halves of `s2` after both recursive calls of `mergeSortHelper`. */
  lemma SortHalves(s: seq<Student>, s1: seq<Student>, s2: seq<Student>, start: int, middle: int, end: int)
    requires 0 <= start <= middle < end < |s|
    requires SplicedAt(s1, s, start, middle, MergeSortSeq(s[start..middle + 1]))
    requires SplicedAt(s2, s1, middle + 1, end, MergeSortSeq(s1[middle + 1..end + 1]))
    ensures s2[..start] == s[..start] && s2[end + 1..] == s[end + 1..]
    ensures s2[start..middle + 1] == MergeSortSeq(s[start..middle + 1])
    ensures s2[middle + 1..end + 1] == MergeSortSeq(s[middle + 1..end + 1])
  {
    assert s1[middle + 1..end + 1] == s[middle + 1..end + 1] by {
      assert s1[middle + 1..end + 1] == s1[middle + 1..][..end - middle];
      assert s[middle + 1..end + 1] == s[middle + 1..][..end - middle];
    }
    assert s1[end + 1..] == s[end + 1..] by {
      assert s1[end + 1..] == s1[middle + 1..][end - middle..];
      assert s[end + 1..] == s[middle + 1..][end - middle..];
    }
    assert s2[..start] == s1[..start] by {
      assert s2[..start] == s2[..middle + 1][..start];
      assert s1[..start] == s1[..middle + 1][..start];
    }
    assert s2[start..middle + 1] == s1[start..middle + 1] by {
      assert s2[start..middle + 1] == s2[..middle + 1][start..];
      assert s1[start..middle + 1] == s1[..middle + 1][start..];
    }
  }

  /** One level of `mergeSortHelper`: if the two recursive calls leave
      `s1` and then `s2` as the merge sort promises, merging the halves of
      `s2` leaves the merge sort of the whole range. */
  lemma SortStep(s: seq<Student>, s1: seq<Student>, s2: seq<Student>, s3: seq<Student>, start: int, middle: int, end: int)
    requires 0 <= start <= middle < end < |s| && middle == (start + end) / 2
    requires SplicedAt(s1, s, start, middle, MergeSortSeq(s[start..middle + 1]))
    requires SplicedAt(s2, s1, middle + 1, end, MergeSortSeq(s1[middle + 1..end + 1]))
    requires SplicedAt(s3, s2, start, end, MergeAt(s2, middle, end, start, middle + 1))
    ensures SplicedAt(s3, s, start, end, MergeSortSeq(s[start..end + 1]))
  {
    SortHalves(s, s1, s2, start, middle, end);
    SortMerged(s, s2, s3, start, middle, end);
  }

  /** The merge of the two sorted halves is the merge sort of the range. */
  lemma SortMerged(s: seq<Student>, s2: seq<Student>, s3: seq<Student>, start: int, middle: int, end: int)
    requires 0 <= start <= middle < end < |s| == |s2| && middle == (start + end) / 2
    requires s2[..start] == s[..start] && s2[end + 1..] == s[end + 1..]
    requires s2[start..middle + 1] == MergeSortSeq(s[start..middle + 1])
    requires s2[middle + 1..end + 1] == MergeSortSeq(s[middle + 1..end + 1])
    requires SplicedAt(s3, s2, start, end, MergeAt(s2, middle, end, start, middle + 1))
    ensures SplicedAt(s3, s, start, end, MergeSortSeq(s[start..end + 1]))
  {
    HalvesMerged(s, s2, start, middle, end);
    SpliceChain(s, s2, s3, start, end, MergeAt(s2, middle, end, start, middle + 1), MergeSortSeq(s[start..end + 1]));
  }

  /** Merging the sorted halves of a range gives the merge sort of the range. */
  lemma HalvesMerged(s: seq<Student>, s2: seq<Student>, start: int, middle: int, end: int)
    requires 0 <= start <= middle < end < |s| == |s2| && middle == (start + end) / 2
    requires s2[start..middle + 1] == MergeSortSeq(s[start..middle + 1])
    requires s2[middle + 1..end + 1] == MergeSortSeq(s[middle + 1..end + 1])
    ensures MergeAt(s2, middle, end, start, middle + 1) == MergeSortSeq(s[start..end + 1])
  {
    MergeAtIsMergeSeq(s2, middle, end, start, middle + 1);
    RangeHalves(s, start, middle, end);
    MergeSortHalves(s[start..end + 1], middle - start + 1, s[start..middle + 1], s[middle + 1..end + 1]);
  }

  /** The halves `(start + end) / 2` makes, as slices of the range. */
  lemma RangeHalves<T>(s: seq<T>, start: int, middle: int, end: int)
    requires 0 <= start <= middle < end < |s| && middle == (start + end) / 2
    ensures var x, h := s[start..end + 1], middle - start + 1;
            |x| > 1 && h == (|x| - 1) / 2 + 1 && x[..h] == s[start..middle + 1] && x[h..] == s[middle + 1..end + 1]
  {
  }

  /** `MergeSplit` with the halves named. */
  lemma MergeSortHalves(x: seq<Student>, h: int, a: seq<Student>, b: seq<Student>)
    requires |x| > 1 && h == (|x| - 1) / 2 + 1 && x[..h] == a && x[h..] == b
    ensures MergeSortSeq(x) == MergeSeq(MergeSortSeq(a), MergeSortSeq(b))
  {
    MergeSortSplit(x, h);
  }

  /** `mergeSortHelper`: sorts `[start, end]` by halving it at
      `(start + end) / 2`; the range ends up holding the merge sort of what
      it held, and the rest of the table is unchanged. */
  method MergeSortHelper(students: array<Student>, start: int, end: int)
    requires 0 <= start <= end < students.Length
    modifies students
    ensures SplicedAt(students[..], old(students[..]), start, end, MergeSortSeq(old(students[..])[start..end + 1]))
    decreases end - start
  {
    ghost var s := students[..];
    if start < end {
      var middle := (start + end) / 2;
      MergeSortHelper(students, start, middle);
      ghost var s1 := students[..];
      MergeSortHelper(students, middle + 1, end);
      ghost var s2 := students[..];
      Merge(students, start, middle, end);
      SortStep(s, s1, s2, students[..], start, middle, end);
    } else {
      assert students[start..end + 1] == MergeSortSeq(s[start..end + 1]);
    }
  }

  // ---------------------------------------------------------------------
  // quickSortHelper and quickSortMain: a sort by name

  /** Every name in `s` is before `name`: `strcmp(name, ..)` is positive. */
  ghost predicate AllBefore(s: seq<Student>, name: string) {
    forall k :: 0 <= k < |s| ==> StringCompare(name, s[k].name) > 0
  }

  /** No name in `s` is before `name`. */
  ghost predicate NoneBefore(s: seq<Student>, name: string) {
    forall k :: 0 <= k < |s| ==> StringCompare(name, s[k].name) <= 0
  }

  /** The names of `s` are in dictionary order. */
  ghost predicate SortedByName(s: seq<Student>) {
    forall i, j :: 0 <= i < j < |s| ==> StringCompare(s[i].name, s[j].name) <= 0
  }

  /** Swapping two entries keeps the same students. */
  lemma SwapPerm<T>(s: seq<T>, i: int, j: int)
    requires 0 <= i < |s| && 0 <= j < |s|
    ensures multiset(s[i := s[j]][j := s[i]]) == multiset(s)
  {
  }

  /** The three-assignment exchange through `temp` that `quickSortHelper`
      performs on two entries. */
  method Swap(students: array<Student>, i: int, j: int)
    requires 0 <= i < students.Length && 0 <= j < students.Length
    modifies students
    ensures students[i] == old(students[j]) && students[j] == old(students[i])
    ensures forall k :: 0 <= k < students.Length && k != i && k != j ==> students[k] == old(students[k])
    ensures multiset(students[..]) == multiset(old(students[..]))
  {
    ghost var before := students[..];
    var temp := students[i];
    students[i] := students[j];
    students[j] := temp;
    assert students[..] == before[i := before[j]][j := before[i]];
    SwapPerm(before, i, j);
  }

  /** The loop of `quickSortHelper`: every entry of `[start, end)` whose name
      comes before the pivot's (the entry at `end`) is swapped to the front;
      `smallestIndex` is the last of them. */
  method MoveBeforePivot(students: array<Student>, start: int, end: int) returns (smallestIndex: int)
    requires 0 <= start <= end < students.Length
    modifies students
    ensures start - 1 <= smallestIndex < end && students[end] == old(students[end])
    ensures forall k :: start <= k <= smallestIndex ==> StringCompare(students[end].name, students[k].name) > 0
    ensures forall k :: smallestIndex < k < end ==> StringCompare(students[end].name, students[k].name) <= 0
    ensures multiset(students[..]) == multiset(old(students[..]))
    ensures forall k :: 0 <= k < students.Length && !(start <= k < end) ==> students[k] == old(students[k])
  {
    ghost var pivot := students[end];
    var pivotIndex := end;
    smallestIndex := start - 1;
    var j := start;
    while j < end
      invariant start <= j <= end && start - 1 <= smallestIndex < j && students[pivotIndex] == pivot
      invariant forall k :: start <= k <= smallestIndex ==> StringCompare(pivot.name, students[k].name) > 0
      invariant forall k :: smallestIndex < k < j ==> StringCompare(pivot.name, students[k].name) <= 0
      invariant multiset(students[..]) == multiset(old(students[..]))
      invariant forall k :: 0 <= k < students.Length && !(start <= k < end) ==> students[k] == old(students[k])
    {
      if StringCompare(students[pivotIndex].name, students[j].name) > 0 {
        smallestIndex := smallestIndex + 1;
        Swap(students, smallestIndex, j);
      }
      j := j + 1;
    }
  }

  /** `quickSortHelper`: the partition step around the last entry of
      `[start, end]`. The entries whose names come before the pivot's are
      moved to the front, then the pivot is swapped in behind them; its
      new index is returned. */
  method QuickSortHelper(students: array<Student>, start: int, end: int) returns (storeIndex: int)
    requires 0 <= start <= end < students.Length
    modifies students
    ensures start <= storeIndex <= end && students[storeIndex] == old(students[end])
    ensures AllBefore(students[start..storeIndex], students[storeIndex].name)
    ensures NoneBefore(students[storeIndex + 1..end + 1], students[storeIndex].name)
    ensures multiset(students[..]) == multiset(old(students[..]))
    ensures forall k :: 0 <= k < students.Length && !(start <= k <= end) ==> students[k] == old(students[k])
  {
    var smallestIndex := MoveBeforePivot(students, start, end);
    var pivotIndex := end;
    Swap(students, smallestIndex + 1, pivotIndex);
    storeIndex := smallestIndex + 1;
  }

  /** Entries that differ only inside `[lo, hi]` and keep the same students
      overall keep the same students inside `[lo, hi]`. */
  lemma RangePerm(a: seq<Student>, b: seq<Student>, lo: int, hi: int)
    requires 0 <= lo <= hi + 1 <= |a| == |b| && multiset(a) == multiset(b)
    requires forall k :: 0 <= k < |a| && !(lo <= k <= hi) ==> a[k] == b[k]
    ensures multiset(a[lo..hi + 1]) == multiset(b[lo..hi + 1])
  {
    var front, back := a[..lo], a[hi + 1..];
    assert a == front + a[lo..hi + 1] + back;
    assert b == front + b[lo..hi + 1] + back;
    MultisetCancel(multiset(front), multiset(a[lo..hi + 1]), multiset(b[lo..hi + 1]), multiset(back));
  }

  /** Equal sums with the same outer parts have equal middle parts. */
  lemma MultisetCancel<T>(f: multiset<T>, x: multiset<T>, y: multiset<T>, k: multiset<T>)
    requires f + x + k == f + y + k
    ensures x == y
  {
    forall e
      ensures x[e] == y[e]
    {
      assert (f + x + k)[e] == (f + y + k)[e];
    }
  }


  /** Reordering keeps every name before `name`. */
  lemma AllBeforePerm(a: seq<Student>, b: seq<Student>, name: string)
    requires multiset(a) == multiset(b) && AllBefore(a, name)
    ensures AllBefore(b, name)
  {
    forall k | 0 <= k < |b|
      ensures StringCompare(name, b[k].name) > 0
    {
      assert b[k] in multiset(a);
      var i :| 0 <= i < |a| && a[i] == b[k];
    }
  }

  /** Reordering keeps every name at or after `name`. */
  lemma NoneBeforePerm(a: seq<Student>, b: seq<Student>, name: string)
    requires multiset(a) == multiset(b) && NoneBefore(a, name)
    ensures NoneBefore(b, name)
  {
    forall k | 0 <= k < |b|
      ensures StringCompare(name, b[k].name) <= 0
    {
      assert b[k] in multiset(a);
      var i :| 0 <= i < |a| && a[i] == b[k];
    }
  }

  /** A sorted part before the pivot and a sorted part after it, with the
      pivot between them by name, make a sorted whole. */
  lemma SortedJoin(l: seq<Student>, p: Student, r: seq<Student>)
    requires SortedByName(l) && SortedByName(r)
    requires AllBefore(l, p.name) && NoneBefore(r, p.name)
    ensures SortedByName(l + [p] + r)
  {
    StringCompareTotal();
    var t := l + [p] + r;
    forall i, j | 0 <= i < j < |t|
      ensures StringCompare(t[i].name, t[j].name) <= 0
    {
      if i < |l| && j > |l| {
        var x, y := t[i].name, t[j].name;
        assert StringCompare(x, p.name) < 0;
        if StringCompare(p.name, y) == 0 {
          assert p.name == y;
        }
      }
    }
  }

  /** After the first recursive call of `quickSortMain`, and still after the
      second, the part before the pivot is sorted and every name in it comes
      before the pivot's. */
  lemma QuickSortLeft(s1: seq<Student>, s2: seq<Student>, s3: seq<Student>, start: int, p: int, end: int)
    requires 0 <= start <= p <= end < |s1| == |s2| == |s3|
    requires AllBefore(s1[start..p], s1[p].name)
    requires SortedByName(s2[start..p]) && multiset(s2) == multiset(s1)
    requires forall k :: 0 <= k < |s1| && !(start <= k <= p - 1) ==> s2[k] == s1[k]
    requires forall k :: 0 <= k < |s1| && !(p + 1 <= k <= end) ==> s3[k] == s2[k]
    ensures AllBefore(s3[start..p], s1[p].name) && SortedByName(s3[start..p])
  {
    RangePerm(s1, s2, start, p - 1);
    AllBeforePerm(s1[start..p], s2[start..p], s1[p].name);
    assert s3[start..p] == s2[start..p];
  }

  /** After the second recursive call of `quickSortMain`, no name in the part
      after the pivot comes before the pivot's. */
  lemma QuickSortRight(s1: seq<Student>, s2: seq<Student>, s3: seq<Student>, start: int, p: int, end: int)
    requires 0 <= start <= p <= end < |s1| == |s2| == |s3|
    requires NoneBefore(s1[p + 1..end + 1], s1[p].name)
    requires forall k :: 0 <= k < |s1| && !(start <= k <= p - 1) ==> s2[k] == s1[k]
    requires multiset(s3) == multiset(s2)
    requires forall k :: 0 <= k < |s1| && !(p + 1 <= k <= end) ==> s3[k] == s2[k]
    ensures NoneBefore(s3[p + 1..end + 1], s1[p].name)
  {
    RangePerm(s2, s3, p + 1, end);
    assert s2[p + 1..end + 1] == s1[p + 1..end + 1];
    NoneBeforePerm(s1[p + 1..end + 1], s3[p + 1..end + 1], s1[p].name);
  }

  /** A range is its part before `p`, the entry at `p` and its part after. */
  lemma AroundPivot<T>(s: seq<T>, start: int, p: int, end: int)
    requires 0 <= start <= p <= end < |s|
    ensures s[start..end + 1] == s[start..p] + [s[p]] + s[p + 1..end + 1]
  {
  }

  /** One level of `quickSortMain`: the partition `s0` to `s1`, then the
      sort of the part before the pivot (`s2`) and of the part after it
      (`s3`), leave `[start, end]` sorted with the same students. */
  lemma QuickSortStep(s0: seq<Student>, s1: seq<Student>, s2: seq<Student>, s3: seq<Student>,
                      start: int, p: int, end: int)
    requires 0 <= start <= p <= end < |s0| == |s1| == |s2| == |s3|
    requires AllBefore(s1[start..p], s1[p].name) && NoneBefore(s1[p + 1..end + 1], s1[p].name)
    requires multiset(s1) == multiset(s0)
    requires forall k :: 0 <= k < |s0| && !(start <= k <= end) ==> s1[k] == s0[k]
    requires SortedByName(s2[start..p]) && multiset(s2) == multiset(s1)
    requires forall k :: 0 <= k < |s0| && !(start <= k <= p - 1) ==> s2[k] == s1[k]
    requires SortedByName(s3[p + 1..end + 1]) && multiset(s3) == multiset(s2)
    requires forall k :: 0 <= k < |s0| && !(p + 1 <= k <= end) ==> s3[k] == s2[k]
    ensures SortedByName(s3[start..end + 1]) && multiset(s3) == multiset(s0)
    ensures forall k :: 0 <= k < |s0| && !(start <= k <= end) ==> s3[k] == s0[k]
  {
    var pv := s1[p];
    QuickSortLeft(s1, s2, s3, start, p, end);
    QuickSortRight(s1, s2, s3, start, p, end);
    assert s3[p] == pv;
    AroundPivot(s3, start, p, end);
    SortedJoin(s3[start..p], pv, s3[p + 1..end + 1]);
  }

  /** `quickSortMain`: partitions `[start, end]` and sorts the two sides
      of the pivot; the range ends up sorted by name, with the same
      students, and the rest of the table is unchanged. */
  method QuickSortMain(students: array<Student>, start: int, end: int)
    requires 0 <= start <= end + 1 <= students.Length
    modifies students
    ensures SortedByName(students[start..end + 1])
    ensures multiset(students[..]) == multiset(old(students[..]))
    ensures forall k :: 0 <= k < students.Length && !(start <= k <= end) ==> students[k] == old(students[k])
    decreases end - start
  {
    if start < end {
      ghost var s0 := students[..];
      var storeIndex := QuickSortHelper(students, start, end);
      ghost var s1 := students[..];
      QuickSortMain(students, start, storeIndex - 1);
      ghost var s2 := students[..];
      QuickSortMain(students, storeIndex + 1, end);
      QuickSortStep(s0, s1, s2, students[..], start, storeIndex, end);
    }
  }
}
