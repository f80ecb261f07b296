/** The `ALGORITHMS` table (lib/algorithms.ts:355-394): for each of the seven generator keys,
    a display name, a category and three complexity strings. The complexity strings are
    display text only; nothing here relates them to the generators' step counts. */
module Registry {

  datatype Category = Sorting | Searching

  datatype Complexity = Complexity(best: string, average: string, worst: string)

  datatype Algorithm = Algorithm(name: string, category: Category, complexity: Complexity)

  const Algorithms: map<string, Algorithm> := map[
    "bubbleSort" := Algorithm("Bubble Sort", Sorting, Complexity("O(n)", "O(n\U{00B2})", "O(n\U{00B2})")),
    "selectionSort" := Algorithm("Selection Sort", Sorting, Complexity("O(n\U{00B2})", "O(n\U{00B2})", "O(n\U{00B2})")),
    "insertionSort" := Algorithm("Insertion Sort", Sorting, Complexity("O(n)", "O(n\U{00B2})", "O(n\U{00B2})")),
    "mergeSort" := Algorithm("Merge Sort", Sorting, Complexity("O(n log n)", "O(n log n)", "O(n log n)")),
    "quickSort" := Algorithm("Quick Sort", Sorting, Complexity("O(n log n)", "O(n log n)", "O(n\U{00B2})")),
    "linearSearch" := Algorithm("Linear Search", Searching, Complexity("O(1)", "O(n)", "O(n)")),
    "binarySearch" := Algorithm("Binary Search", Searching, Complexity("O(1)", "O(log n)", "O(log n)"))
  ]

  /** The five sorting keys and the two searching keys, and nothing else. */
  lemma RegistryKeys()
    ensures Algorithms.Keys == {"bubbleSort", "selectionSort", "insertionSort", "mergeSort", "quickSort",
                                "linearSearch", "binarySearch"}
    ensures forall key :: key in Algorithms ==>
      (Algorithms[key].category == Searching <==> key == "linearSearch" || key == "binarySearch")
  {
  }
}
